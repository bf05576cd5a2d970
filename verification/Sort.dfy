/** In-place heapsort and binary search over a caller-supplied comparison (lib/stdlib.c). */
module Sort {
  import opened Common

  /** A strcmp-type comparison: negative, zero or positive. */
  type Compare<!T> = (T, T) -> int

  /** What the callers must supply: a total preorder. */
  ghost predicate TotalPreorder<T(!new)>(cmp: Compare<T>) {
    && (forall a, b :: cmp(a, b) <= 0 <==> cmp(b, a) >= 0)
    && (forall a, b, c :: cmp(a, b) <= 0 && cmp(b, c) <= 0 ==> cmp(a, c) <= 0)
  }

  ghost predicate Sorted<T>(cmp: Compare<T>, s: seq<T>) {
    forall i, j :: 0 <= i < j < |s| ==> cmp(s[i], s[j]) <= 0
  }

  /** The source counts elements from 1. */
  function At<T>(s: seq<T>, i: nat): T
    requires 1 <= i <= |s|
  {
    s[i - 1]
  }

  /** c is in the subtree at top. */
  predicate Under(top: nat, c: nat)
    decreases c
  {
    c == top || (c > top && Under(top, c / 2))
  }

  /** Every child up to cnt whose parent is in the subtree at top, and is not the hole, is no larger than its parent. */
  ghost predicate HeapExcept<T>(cmp: Compare<T>, s: seq<T>, top: nat, cnt: nat, hole: nat)
    requires cnt <= |s|
  {
    forall c {:trigger At(s, c)} :: 2 <= c <= cnt && c / 2 != hole && Under(top, c / 2) ==>
      cmp(At(s, c), At(s, c / 2)) <= 0
  }

  /** The subtree at top, cut off after cnt, is a heap. */
  ghost predicate SubHeap<T>(cmp: Compare<T>, s: seq<T>, top: nat, cnt: nat)
    requires cnt <= |s|
  {
    HeapExcept(cmp, s, top, cnt, 0)
  }

  /** The subtrees at lo and all later positions are heaps. */
  ghost predicate Heap<T>(cmp: Compare<T>, s: seq<T>, lo: nat, cnt: nat)
    requires cnt <= |s|
  {
    forall c {:trigger At(s, c)} :: 2 <= c <= cnt && lo <= c / 2 ==> cmp(At(s, c), At(s, c / 2)) <= 0
  }

  function Swapped<T>(s: seq<T>, i: nat, j: nat): (r: seq<T>)
    requires 1 <= i <= |s| && 1 <= j <= |s|
  {
    s[i - 1 := s[j - 1]][j - 1 := s[i - 1]]
  }

  lemma MultisetUpdate<T>(s: seq<T>, i: nat, x: T)
    requires i < |s|
    ensures multiset(s[i := x]) + multiset{s[i]} == multiset(s) + multiset{x}
  {
    assert s == s[..i] + [s[i]] + s[i + 1..];
    assert s[i := x] == s[..i] + [x] + s[i + 1..];
  }

  lemma SwapPermutes<T>(s: seq<T>, i: nat, j: nat)
    requires 1 <= i <= |s| && 1 <= j <= |s|
    ensures multiset(Swapped(s, i, j)) == multiset(s)
  {
    if i == j {
      assert Swapped(s, i, j) == s;
    } else {
      var x, y := s[i - 1], s[j - 1];
      var t := s[i - 1 := y];
      MultisetUpdate(s, i - 1, y);
      MultisetUpdate(t, j - 1, x);
      Cancel(multiset(Swapped(s, i, j)), multiset(t), multiset(s), multiset{x}, multiset{y});
    }
  }

  lemma Cancel<T>(r: multiset<T>, t: multiset<T>, s: multiset<T>, x: multiset<T>, y: multiset<T>)
    requires t + x == s + y && r + y == t + x
    ensures r == s
  {
    assert forall e :: r[e] + y[e] == (r + y)[e] && s[e] + y[e] == (s + y)[e];
  }

  method DoSwap<T>(a: array<T>, i: nat, j: nat)
    requires 1 <= i <= a.Length && 1 <= j <= a.Length
    modifies a
    ensures a[..] == Swapped(old(a[..]), i, j)
  {
    var t := a[i - 1];
    a[i - 1] := a[j - 1];
    a[j - 1] := t;
  }

  /** Which of i and its children holds the largest element. */
  function MaxOfThree<T>(cmp: Compare<T>, s: seq<T>, i: nat, cnt: nat): (m: nat)
    requires 1 <= i <= cnt <= |s|
  {
    var m := if 2 * i <= cnt && cmp(At(s, 2 * i), At(s, i)) > 0 then 2 * i else i;
    if 2 * i + 1 <= cnt && cmp(At(s, 2 * i + 1), At(s, m)) > 0 then 2 * i + 1 else m
  }

  /** The children of the hole are no larger than the hole's parent, unless the hole is at the top. */
  ghost predicate Bridged<T>(cmp: Compare<T>, s: seq<T>, top: nat, cnt: nat, i: nat)
    requires cnt <= |s|
  {
    forall c {:trigger At(s, c)} :: 2 <= c <= cnt && c / 2 == i && 1 <= i / 2 && Under(top, i / 2) ==>
      cmp(At(s, c), At(s, i / 2)) <= 0
  }

  lemma Reflexive<T(!new)>(cmp: Compare<T>, x: T)
    requires TotalPreorder(cmp)
    ensures cmp(x, x) == 0
  {
    assert cmp(x, x) <= 0 <==> cmp(x, x) >= 0;
  }

  /** The largest of three is no smaller than the other two. */
  lemma MaxIsLargest<T(!new)>(cmp: Compare<T>, s: seq<T>, i: nat, cnt: nat)
    requires TotalPreorder(cmp) && 1 <= i <= cnt <= |s|
    ensures var m := MaxOfThree(cmp, s, i, cnt);
            && (m == i || m / 2 == i) && m <= cnt
            && cmp(At(s, i), At(s, m)) <= 0
            && forall c {:trigger At(s, c)} :: 2 <= c <= cnt && c / 2 == i ==> cmp(At(s, c), At(s, m)) <= 0
  {
    var m := MaxOfThree(cmp, s, i, cnt);
    Reflexive(cmp, At(s, m));
    forall c {:trigger At(s, c)} | 2 <= c <= cnt && c / 2 == i
      ensures cmp(At(s, c), At(s, m)) <= 0
    {
      assert c == 2 * i || c == 2 * i + 1;
    }
  }

  /** r is s with the elements of the subtree at top, up to cnt, rearranged. */
  ghost predicate Rearranged<T>(s: seq<T>, r: seq<T>, top: nat, cnt: nat) {
    && |r| == |s| && multiset(r) == multiset(s)
    && forall k {:trigger At(r, k)} :: 1 <= k <= |s| && (cnt < k || !Under(top, k)) ==> At(r, k) == At(s, k)
  }

  lemma SwappedAt<T>(s: seq<T>, i: nat, m: nat, k: nat)
    requires 1 <= i <= |s| && 1 <= m <= |s| && 1 <= k <= |s|
    ensures At(Swapped(s, i, m), k) == At(s, if k == i then m else if k == m then i else k)
  {
  }

  /** After the swap of the hole i with its largest child m, child c is no larger than its parent. */
  lemma SiftedChild<T(!new)>(cmp: Compare<T>, s: seq<T>, top: nat, cnt: nat, i: nat, m: nat, c: nat)
    requires TotalPreorder(cmp) && i <= cnt <= |s| && 2 <= c <= cnt && c / 2 != m && Under(top, c / 2) && 1 <= i
    requires HeapExcept(cmp, s, top, cnt, i) && Bridged(cmp, s, top, cnt, i)
    requires m == MaxOfThree(cmp, s, i, cnt) != i && m / 2 == i && m <= cnt
    ensures cmp(At(Swapped(s, i, m), c), At(Swapped(s, i, m), c / 2)) <= 0
  {
    MaxIsLargest(cmp, s, i, cnt);
    SwappedAt(s, i, m, c);
    SwappedAt(s, i, m, c / 2);
    if c == i {
      assert cmp(At(s, m), At(s, i / 2)) <= 0;
    } else if c / 2 != i {
      assert cmp(At(s, c), At(s, c / 2)) <= 0;
    }
  }

  /** Swapping the hole with its largest child m moves the hole down to m. */
  lemma SiftStep<T(!new)>(cmp: Compare<T>, s: seq<T>, top: nat, cnt: nat, i: nat, m: nat)
    requires TotalPreorder(cmp) && 1 <= top && i <= cnt <= |s| && Under(top, i)
    requires HeapExcept(cmp, s, top, cnt, i) && Bridged(cmp, s, top, cnt, i)
    requires m == MaxOfThree(cmp, s, i, cnt) != i
    ensures m / 2 == i && m <= cnt && Under(top, m)
    ensures HeapExcept(cmp, Swapped(s, i, m), top, cnt, m)
  {
    MaxIsLargest(cmp, s, i, cnt);
    var r := Swapped(s, i, m);
    forall c {:trigger At(r, c)} | 2 <= c <= cnt && c / 2 != m && Under(top, c / 2)
      ensures cmp(At(r, c), At(r, c / 2)) <= 0
    {
      SiftedChild(cmp, s, top, cnt, i, m, c);
    }
  }

  lemma SwapRearranges<T>(s0: seq<T>, s: seq<T>, top: nat, cnt: nat, i: nat, m: nat)
    requires Rearranged(s0, s, top, cnt) && 1 <= i <= cnt <= |s| && 1 <= m <= cnt && Under(top, i) && Under(top, m)
    ensures Rearranged(s0, Swapped(s, i, m), top, cnt)
  {
    var r := Swapped(s, i, m);
    SwapPermutes(s, i, m);
    forall k {:trigger At(r, k)} | 1 <= k <= |s| && (cnt < k || !Under(top, k))
      ensures At(r, k) == At(s0, k)
    {
      SwappedAt(s, i, m, k);
      assert At(s, k) == At(s0, k);
    }
  }

  /** ... and the hole's new parent bounds the hole's new children. */
  lemma SiftBridge<T(!new)>(cmp: Compare<T>, s: seq<T>, top: nat, cnt: nat, i: nat, m: nat)
    requires 1 <= top && i <= cnt <= |s| && Under(top, i) && m / 2 == i && m <= cnt
    requires HeapExcept(cmp, s, top, cnt, i)
    ensures Bridged(cmp, Swapped(s, i, m), top, cnt, m)
  {
    var r := Swapped(s, i, m);
    forall c {:trigger At(r, c)} | 2 <= c <= cnt && c / 2 == m
      ensures cmp(At(r, c), At(r, m / 2)) <= 0
    {
      SwappedAt(s, i, m, c);
      SwappedAt(s, i, m, i);
      assert cmp(At(s, c), At(s, m)) <= 0;
    }
  }

  /** What `heapify` maintains while the hole is at i; s0 is the array it was given. */
  ghost predicate Sifting<T>(cmp: Compare<T>, s0: seq<T>, s: seq<T>, top: nat, cnt: nat, i: nat) {
    && 1 <= top && i <= cnt <= |s| && Under(top, i)
    && HeapExcept(cmp, s, top, cnt, i) && Bridged(cmp, s, top, cnt, i)
    && Rearranged(s0, s, top, cnt)
  }

  lemma SiftOn<T(!new)>(cmp: Compare<T>, s0: seq<T>, s: seq<T>, top: nat, cnt: nat, i: nat, m: nat)
    requires TotalPreorder(cmp) && Sifting(cmp, s0, s, top, cnt, i)
    requires m == MaxOfThree(cmp, s, i, cnt) != i
    ensures m > i && Sifting(cmp, s0, Swapped(s, i, m), top, cnt, m)
  {
    SiftStep(cmp, s, top, cnt, i, m);
    SiftBridge(cmp, s, top, cnt, i, m);
    SwapRearranges(s0, s, top, cnt, i, m);
  }

  /** When the hole already holds the largest of the three, the heap is whole. */
  lemma SiftDone<T(!new)>(cmp: Compare<T>, s0: seq<T>, s: seq<T>, top: nat, cnt: nat, i: nat)
    requires TotalPreorder(cmp) && Sifting(cmp, s0, s, top, cnt, i)
    requires MaxOfThree(cmp, s, i, cnt) == i
    ensures SubHeap(cmp, s, top, cnt) && Rearranged(s0, s, top, cnt)
  {
    MaxIsLargest(cmp, s, i, cnt);
  }

  /** Sets `max` to the index of the largest among i and its children (if any). */
  method LargestOf<T(!new)>(a: array<T>, i: nat, cnt: nat, cmp: Compare<T>) returns (max: nat)
    requires 1 <= i <= cnt <= a.Length
    ensures max == MaxOfThree(cmp, a[..], i, cnt)
  {
    var left := 2 * i;
    var right := 2 * i + 1;
    max := i;
    if left <= cnt && cmp(a[left - 1], a[max - 1]) > 0 {
      max := left;
    }
    if right <= cnt && cmp(a[right - 1], a[max - 1]) > 0 {
      max := right;
    }
  }

  /** A subtree is its top and the subtrees of the top's children. */
  lemma {:induction false} UnderChild(top: nat, c: nat)
    requires 1 <= top && Under(top, c) && c != top
    ensures Under(2 * top, c) || Under(2 * top + 1, c)
    decreases c
  {
    if c / 2 == top {
      assert c == 2 * top || c == 2 * top + 1;
    } else {
      UnderChild(top, c / 2);
    }
  }

  lemma UnderIsBelow(top: nat, c: nat)
    requires Under(top, c)
    ensures top <= c
  {
  }

  /** `heapify` starts with the hole at the top. */
  lemma BothSubtrees<T(!new)>(cmp: Compare<T>, s: seq<T>, top: nat, cnt: nat)
    requires 1 <= top <= cnt <= |s| && SubHeap(cmp, s, 2 * top, cnt) && SubHeap(cmp, s, 2 * top + 1, cnt)
    ensures Sifting(cmp, s, s, top, cnt, top)
  {
    forall c {:trigger At(s, c)} | 2 <= c <= cnt && c / 2 != top && Under(top, c / 2)
      ensures cmp(At(s, c), At(s, c / 2)) <= 0
    {
      UnderChild(top, c / 2);
    }
    assert Under(top, top / 2) ==> false by {
      if Under(top, top / 2) {
        UnderIsBelow(top, top / 2);
      }
    }
  }

  /** `heapify`: floats element i0 down until the subtree at i0 is a heap again. */
  method Heapify<T(!new)>(a: array<T>, i0: nat, cnt: nat, cmp: Compare<T>)
    requires TotalPreorder(cmp)
    requires 1 <= i0 <= cnt <= a.Length
    requires SubHeap(cmp, a[..], 2 * i0, cnt) && SubHeap(cmp, a[..], 2 * i0 + 1, cnt)
    modifies a
    ensures SubHeap(cmp, a[..], i0, cnt)
    ensures Rearranged(old(a[..]), a[..], i0, cnt)
  {
    ghost var s0 := a[..];
    var i := i0;
    BothSubtrees(cmp, s0, i0, cnt);
    while true
      invariant Sifting(cmp, s0, a[..], i0, cnt, i)
      decreases cnt - i
    {
      ghost var s := a[..];
      var max := LargestOf(a, i, cnt, cmp);
      if max == i {
        SiftDone(cmp, s0, s, i0, cnt, i);
        break;
      }
      SiftOn(cmp, s0, s, i0, cnt, i, max);
      DoSwap(a, i, max);
      i := max;
    }
  }

  /** If all later subtrees were heaps too, they still are. */
  lemma HeapGrows<T(!new)>(cmp: Compare<T>, s: seq<T>, r: seq<T>, top: nat, cnt: nat)
    requires 1 <= top <= cnt <= |s| && Heap(cmp, s, top + 1, cnt) && Rearranged(s, r, top, cnt) &&
             SubHeap(cmp, r, top, cnt)
    ensures Heap(cmp, r, top, cnt)
  {
    forall c {:trigger At(r, c)} | 2 <= c <= cnt && top <= c / 2
      ensures cmp(At(r, c), At(r, c / 2)) <= 0
    {
      if !Under(top, c / 2) {
        assert !Under(top, c) && c / 2 > top;
        assert At(r, c) == At(s, c) && At(r, c / 2) == At(s, c / 2);
        assert cmp(At(s, c), At(s, c / 2)) <= 0;
      }
    }
  }

  lemma SubHeapOf<T(!new)>(cmp: Compare<T>, s: seq<T>, lo: nat, top: nat, cnt: nat)
    requires lo <= top && cnt <= |s| && Heap(cmp, s, lo, cnt)
    ensures SubHeap(cmp, s, top, cnt)
  {
    forall c {:trigger At(s, c)} | 2 <= c <= cnt && Under(top, c / 2)
      ensures cmp(At(s, c), At(s, c / 2)) <= 0
    {
      UnderIsBelow(top, c / 2);
    }
  }

  /** The first element of a heap is its largest. */
  lemma {:induction false} RootIsLargest<T(!new)>(cmp: Compare<T>, s: seq<T>, cnt: nat, k: nat)
    requires TotalPreorder(cmp) && 1 <= k <= cnt <= |s|
    requires Heap(cmp, s, 1, cnt)
    ensures cmp(At(s, k), At(s, 1)) <= 0
  {
    if k == 1 {
      Reflexive(cmp, At(s, 1));
    } else {
      RootIsLargest(cmp, s, cnt, k / 2);
    }
  }

  /** Elements from slot `cut` on are in order and none is below an element before `cut`. */
  ghost predicate SortedFrom<T>(cmp: Compare<T>, s: seq<T>, cut: nat) {
    forall i, j :: 0 <= i < j < |s| && cut <= j ==> cmp(s[i], s[j]) <= 0
  }

  /** Moving the heap's root behind the heap extends the sorted part by one. */
  lemma ExtractMax<T(!new)>(cmp: Compare<T>, s: seq<T>, i: nat)
    requires TotalPreorder(cmp) && 1 < i <= |s|
    requires Heap(cmp, s, 1, i) && SortedFrom(cmp, s, i)
    ensures SortedFrom(cmp, Swapped(s, 1, i), i - 1)
  {
    var r := Swapped(s, 1, i);
    forall k, j | 0 <= k < j < |r| && i - 1 <= j
      ensures cmp(r[k], r[j]) <= 0
    {
      var k' := if k == 0 then i else if k == i - 1 then 1 else k + 1;
      SwappedAt(s, 1, i, k + 1);
      SwappedAt(s, 1, i, j + 1);
      if j == i - 1 {
        RootIsLargest(cmp, s, i, k');
      } else {
        assert cmp(s[k' - 1], s[j]) <= 0;
      }
    }
  }

  /** ... and leaves both subtrees of the new root heaps. */
  lemma SubtreesStay<T(!new)>(cmp: Compare<T>, s: seq<T>, i: nat)
    requires 1 < i <= |s| && Heap(cmp, s, 1, i)
    ensures Heap(cmp, Swapped(s, 1, i), 2, i - 1)
  {
    var r := Swapped(s, 1, i);
    forall c {:trigger At(r, c)} | 2 <= c <= i - 1 && 2 <= c / 2
      ensures cmp(At(r, c), At(r, c / 2)) <= 0
    {
      assert At(r, c) == At(s, c) && At(r, c / 2) == At(s, c / 2);
    }
  }

  /** Rearranging the part before `cut` keeps the part from `cut` on sorted. */
  lemma RearrangeFront<T(!new)>(cmp: Compare<T>, s: seq<T>, r: seq<T>, top: nat, cut: nat)
    requires cut <= |s| && SortedFrom(cmp, s, cut) && Rearranged(s, r, top, cut)
    ensures SortedFrom(cmp, r, cut)
  {
    forall k | cut <= k < |s|
      ensures r[k] == s[k]
    {
      assert At(r, k + 1) == At(s, k + 1);
    }
    assert s == s[..cut] + s[cut..] && r == r[..cut] + r[cut..];
    assert r[cut..] == s[cut..];
    assert multiset(r[..cut]) + multiset(r[cut..]) == multiset(s[..cut]) + multiset(r[cut..]);
    Cancel(multiset(r[..cut]), multiset(r), multiset(s[..cut]), multiset{}, multiset(r[cut..]));
    forall k, j | 0 <= k < j < |r| && cut <= j
      ensures cmp(r[k], r[j]) <= 0
    {
      if k < cut {
        assert r[..cut][k] in multiset(r[..cut]);
        assert r[k] in multiset(s[..cut]);
        var k' :| 0 <= k' < cut && s[..cut][k'] == r[k];
        assert s[k'] == r[k] && s[j] == r[j];
      }
    }
  }

  /** `sort`: an ordered permutation of the input, for every total preorder. */
  method HeapSort<T(!new)>(a: array<T>, cmp: Compare<T>)
    requires TotalPreorder(cmp)
    modifies a
    ensures Sorted(cmp, a[..])
    ensures multiset(a[..]) == multiset(old(a[..]))
  {
    ghost var s0 := a[..];
    var cnt := a.Length;
    var i := cnt / 2;
    while i > 0
      invariant 0 <= i <= cnt / 2
      invariant Heap(cmp, a[..], i + 1, cnt)
      invariant multiset(a[..]) == multiset(s0)
    {
      ghost var s := a[..];
      SubHeapOf(cmp, s, i + 1, 2 * i, cnt);
      SubHeapOf(cmp, s, i + 1, 2 * i + 1, cnt);
      Heapify(a, i, cnt, cmp);
      HeapGrows(cmp, s, a[..], i, cnt);
      i := i - 1;
    }
    i := cnt;
    while i > 1
      invariant 0 <= i <= cnt && (i == 0 ==> cnt == 0)
      invariant Heap(cmp, a[..], 1, i)
      invariant SortedFrom(cmp, a[..], i)
      invariant multiset(a[..]) == multiset(s0)
    {
      ghost var s := a[..];
      ExtractMax(cmp, s, i);
      SubtreesStay(cmp, s, i);
      SwapPermutes(s, 1, i);
      DoSwap(a, 1, i);
      SubHeapOf(cmp, a[..], 2, 2, i - 1);
      SubHeapOf(cmp, a[..], 2, 3, i - 1);
      Heapify(a, 1, i - 1, cmp);
      HeapGrows(cmp, Swapped(s, 1, i), a[..], 1, i - 1);
      RearrangeFront(cmp, Swapped(s, 1, i), a[..], 1, i - 1);
      i := i - 1;
    }
    assert SortedFrom(cmp, a[..], i);
  }

  lemma Below<T(!new)>(cmp: Compare<T>, key: T, x: T, y: T)
    requires TotalPreorder(cmp) && cmp(key, x) < 0 && (cmp(x, y) <= 0 || x == y)
    ensures cmp(key, y) < 0
  {
    Reflexive(cmp, x);
    assert cmp(y, key) <= 0 <==> cmp(key, y) >= 0;
    assert cmp(x, key) <= 0 <==> cmp(key, x) >= 0;
  }

  lemma Above<T(!new)>(cmp: Compare<T>, key: T, x: T, y: T)
    requires TotalPreorder(cmp) && cmp(key, x) > 0 && (cmp(y, x) <= 0 || x == y)
    ensures cmp(key, y) > 0
  {
    Reflexive(cmp, x);
    assert cmp(key, y) <= 0 && cmp(y, x) <= 0 ==> cmp(key, x) <= 0;
  }

  /** `binary_search`: on a sorted array it finds a match exactly when there is one. */
  method BinarySearch<T(!new)>(key: T, a: array<T>, cmp: Compare<T>) returns (r: Option<nat>)
    requires TotalPreorder(cmp) && Sorted(cmp, a[..])
    ensures r.Some? ==> r.value < a.Length && cmp(key, a[r.value]) == 0
    ensures r.None? ==> forall k :: 0 <= k < a.Length ==> cmp(key, a[k]) != 0
  {
    var first, last := 0, a.Length;
    while first < last
      invariant 0 <= first <= last <= a.Length
      invariant forall k :: 0 <= k < first ==> cmp(key, a[k]) > 0
      invariant forall k :: last <= k < a.Length ==> cmp(key, a[k]) < 0
    {
      var middle := first + (last - first) / 2;
      var c := cmp(key, a[middle]);
      assert forall k :: 0 <= k < a.Length ==> a[k] == a[..][k];
      if c < 0 {
        forall k | middle <= k < a.Length
          ensures cmp(key, a[k]) < 0
        {
          Below(cmp, key, a[middle], a[k]);
        }
        last := middle;
      } else if c > 0 {
        forall k | 0 <= k <= middle
          ensures cmp(key, a[k]) > 0
        {
          Above(cmp, key, a[middle], a[k]);
        }
        first := middle + 1;
      } else {
        return Some(middle);
      }
    }
    r := None;
  }
}
