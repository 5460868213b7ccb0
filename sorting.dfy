/** `Array.prototype.sort(compare)` as the application uses it: a stable
    sort (ECMAScript 2019 and later) under a comparator that is a total
    preorder. The reference definition is insertion sort on sequences;
    `SortInPlace` is the in-place array algorithm, proved to produce it. */
module Sorting {

  /** `le(x, y)` means "x may come before y": `compare(x, y) <= 0`. */
  ghost predicate TotalPreorder<T(!new)>(le: (T, T) -> bool) {
    && (forall x, y :: le(x, y) || le(y, x))
    && (forall x, y, z :: le(x, y) && le(y, z) ==> le(x, z))
  }

  predicate Sorted<T>(s: seq<T>, le: (T, T) -> bool) {
    forall i, j :: 0 <= i < j < |s| ==> le(s[i], s[j])
  }

  /** Inserts `x` after the last element of `s` that may precede it. */
  function Insert<T>(s: seq<T>, x: T, le: (T, T) -> bool): seq<T>
    decreases |s|
  {
    if s == [] then [x]
    else if le(s[|s| - 1], x) then s + [x]
    else Insert(s[..|s| - 1], x, le) + [s[|s| - 1]]
  }

  /** The stable sort of `s` under `le`. */
  function InsertionSort<T>(s: seq<T>, le: (T, T) -> bool): seq<T>
    decreases |s|
  {
    if s == [] then [] else Insert(InsertionSort(s[..|s| - 1], le), s[|s| - 1], le)
  }

  /** The elements of `s` equivalent to `z` under `le`, in order. Stability
      says that sorting leaves every such class in its original order. */
  function EquivalenceClass<T>(s: seq<T>, z: T, le: (T, T) -> bool): seq<T>
    decreases |s|
  {
    if s == [] then []
    else
      EquivalenceClass(s[..|s| - 1], z, le)
      + (if le(s[|s| - 1], z) && le(z, s[|s| - 1]) then [s[|s| - 1]] else [])
  }

  // ---------------------------------------------------------------------
  // Insert
  // ---------------------------------------------------------------------

  lemma {:induction false} InsertPermutes<T>(s: seq<T>, x: T, le: (T, T) -> bool)
    ensures multiset(Insert(s, x, le)) == multiset(s) + multiset{x}
    decreases |s|
  {
    if s != [] && !le(s[|s| - 1], x) {
      InsertPermutes(s[..|s| - 1], x, le);
      assert s == s[..|s| - 1] + [s[|s| - 1]];
    }
  }

  /** Insertion keeps a sorted sequence sorted. */
  lemma {:induction false} InsertSorted<T(!new)>(s: seq<T>, x: T, le: (T, T) -> bool)
    requires TotalPreorder(le)
    requires Sorted(s, le)
    ensures Sorted(Insert(s, x, le), le)
    decreases |s|
  {
    if s != [] && !le(s[|s| - 1], x) {
      var init, last := s[..|s| - 1], s[|s| - 1];
      InsertSorted(init, x, le);
      InsertPermutes(init, x, le);
      var r := Insert(init, x, le);
      assert le(x, last);
      forall k | 0 <= k < |r| ensures le(r[k], last) {
        assert r[k] in multiset(r);
        assert r[k] == x || r[k] in multiset(init);
        if r[k] != x {
          var j :| 0 <= j < |init| && init[j] == r[k];
          assert s[j] == init[j];
        }
      }
    }
  }

  /** Insertion appends `x` to its equivalence class when `x` belongs to it,
      and leaves the class alone otherwise. */
  lemma {:induction false} InsertStable<T(!new)>(s: seq<T>, x: T, z: T, le: (T, T) -> bool)
    requires TotalPreorder(le)
    requires Sorted(s, le)
    ensures EquivalenceClass(Insert(s, x, le), z, le)
         == EquivalenceClass(s, z, le) + (if le(x, z) && le(z, x) then [x] else [])
    decreases |s|
  {
    if s == [] {
      ClassSnoc([], x, z, le);
      assert [] + [x] == [x];
    } else if le(s[|s| - 1], x) {
      ClassSnoc(s, x, z, le);
    } else {
      var init, last := s[..|s| - 1], s[|s| - 1];
      assert Sorted(init, le) by {
        forall i, j | 0 <= i < j < |init| ensures le(init[i], init[j]) {
          assert init[i] == s[i] && init[j] == s[j];
        }
      }
      InsertStable(init, x, z, le);
      ClassSnoc(Insert(init, x, le), last, z, le);
      assert s == init + [last];
      ClassSnoc(init, last, z, le);
      assert le(last, z) && le(z, x) ==> le(last, x);
    }
  }

  /** The class of a sequence extended by one element. */
  lemma ClassSnoc<T>(s: seq<T>, y: T, z: T, le: (T, T) -> bool)
    ensures EquivalenceClass(s + [y], z, le)
         == EquivalenceClass(s, z, le) + (if le(y, z) && le(z, y) then [y] else [])
  {
    assert (s + [y])[..|s|] == s;
  }

  // ---------------------------------------------------------------------
  // InsertionSort
  // ---------------------------------------------------------------------

  /** The sort returns a permutation of its input. */
  lemma {:induction false} SortPermutes<T>(s: seq<T>, le: (T, T) -> bool)
    ensures multiset(InsertionSort(s, le)) == multiset(s)
    decreases |s|
  {
    if s != [] {
      var init := s[..|s| - 1];
      SortPermutes(init, le);
      InsertPermutes(InsertionSort(init, le), s[|s| - 1], le);
      assert s == init + [s[|s| - 1]];
    }
  }

  /** The sort returns a sorted sequence. */
  lemma {:induction false} SortSorts<T(!new)>(s: seq<T>, le: (T, T) -> bool)
    requires TotalPreorder(le)
    ensures Sorted(InsertionSort(s, le), le)
    decreases |s|
  {
    if s != [] {
      SortSorts(s[..|s| - 1], le);
      InsertSorted(InsertionSort(s[..|s| - 1], le), s[|s| - 1], le);
    }
  }

  /** The sort is stable: elements the comparator cannot tell apart keep
      their relative order. */
  lemma {:induction false} SortStable<T(!new)>(s: seq<T>, z: T, le: (T, T) -> bool)
    requires TotalPreorder(le)
    ensures EquivalenceClass(InsertionSort(s, le), z, le) == EquivalenceClass(s, z, le)
    decreases |s|
  {
    if s != [] {
      var init := s[..|s| - 1];
      SortStable(init, z, le);
      SortSorts(init, le);
      InsertStable(InsertionSort(init, le), s[|s| - 1], z, le);
    }
  }

  /** A sorted sequence is its own sort. */
  lemma {:induction false} SortOfSorted<T>(s: seq<T>, le: (T, T) -> bool)
    requires Sorted(s, le)
    ensures InsertionSort(s, le) == s
    decreases |s|
  {
    if s != [] {
      var init := s[..|s| - 1];
      assert Sorted(init, le);
      SortOfSorted(init, le);
      assert s == init + [s[|s| - 1]];
      if init != [] {
        assert le(init[|init| - 1], s[|s| - 1]);
      }
    }
  }

  /** Sorting twice is sorting once. */
  lemma SortIdempotent<T(!new)>(s: seq<T>, le: (T, T) -> bool)
    requires TotalPreorder(le)
    ensures InsertionSort(InsertionSort(s, le), le) == InsertionSort(s, le)
  {
    SortSorts(s, le);
    SortOfSorted(InsertionSort(s, le), le);
  }

  // ---------------------------------------------------------------------
  // The in-place algorithm
  // ---------------------------------------------------------------------

  /** Sorts `a` in place by insertion, shifting larger elements right. */
  method SortInPlace<T>(a: array<T>, le: (T, T) -> bool)
    modifies a
    ensures a[..] == InsertionSort(old(a[..]), le)
  {
    ghost var original := a[..];
    var i := 0;
    while i < a.Length
      invariant 0 <= i <= a.Length
      invariant a[..i] == InsertionSort(original[..i], le)
      invariant a[i..] == original[i..]
    {
      assert a[i + 1..] == original[i + 1..] by {
        assert a[i + 1..] == a[i..][1..] && original[i + 1..] == original[i..][1..];
      }
      InsertAt(a, i, le);
      assert original[..i + 1][..i] == original[..i];
      i := i + 1;
    }
    assert original[..a.Length] == original;
  }

  /** Moves `a[i]` into place within the prefix `a[..i]`. */
  method InsertAt<T>(a: array<T>, i: nat, le: (T, T) -> bool)
    requires i < a.Length
    modifies a
    ensures a[..i + 1] == Insert(old(a[..i]), old(a[i]), le)
    ensures a[i + 1..] == old(a[i + 1..])
  {
    ghost var prefix := a[..i];
    var x := a[i];
    var j := ShiftGreater(a, i, x, le);
    a[j] := x;
    InsertPosition(prefix, x, j, le);
    Reassemble(a[..i + 1], prefix, x, j);
    ghost var tail, oldTail := a[i + 1..], old(a[i + 1..]);
    assert forall k | 0 <= k < |tail| :: tail[k] == oldTail[k];
  }

  /** Shifts right by one place the elements at the end of `a[..i]` that
      may not precede `x`, and returns the index of the gap left for `x`. */
  method ShiftGreater<T>(a: array<T>, i: nat, x: T, le: (T, T) -> bool) returns (j: nat)
    requires i < a.Length
    modifies a
    ensures j <= i
    ensures forall k :: 0 <= k < j ==> a[k] == old(a[k])
    ensures forall k :: j < k <= i ==> a[k] == old(a[k - 1])
    ensures forall k :: i < k < a.Length ==> a[k] == old(a[k])
    ensures j == 0 || le(old(a[j - 1]), x)
    ensures forall k :: j <= k < i ==> !le(old(a[k]), x)
  {
    j := i;
    while j > 0 && !le(a[j - 1], x)
      invariant 0 <= j <= i
      invariant forall k :: 0 <= k < j ==> a[k] == old(a[k])
      invariant forall k :: j < k <= i ==> a[k] == old(a[k - 1])
      invariant forall k :: i < k < a.Length ==> a[k] == old(a[k])
      invariant forall k :: j <= k < i ==> !le(old(a[k]), x)
    {
      a[j] := a[j - 1];
      j := j - 1;
    }
  }

  /** Where `Insert` puts `x`: after the last element that may precede it,
      when every later element may not. */
  lemma {:induction false} InsertPosition<T>(s: seq<T>, x: T, j: nat, le: (T, T) -> bool)
    requires j <= |s|
    requires j == 0 || le(s[j - 1], x)
    requires forall k :: j <= k < |s| ==> !le(s[k], x)
    ensures Insert(s, x, le) == s[..j] + [x] + s[j..]
    decreases |s|
  {
    if |s| > j {
      var init := s[..|s| - 1];
      assert init[..j] == s[..j];
      InsertPosition(init, x, j, le);
      assert s[j..] == init[j..] + [s[|s| - 1]];
    } else {
      assert s[..j] == s;
    }
  }

  /** The array contents after the shift and the placement of `x`. */
  lemma Reassemble<T>(s: seq<T>, prefix: seq<T>, x: T, j: nat)
    requires |s| == |prefix| + 1 && j <= |prefix|
    requires forall k :: 0 <= k < j ==> s[k] == prefix[k]
    requires s[j] == x
    requires forall k :: j < k < |s| ==> s[k] == prefix[k - 1]
    ensures s == prefix[..j] + [x] + prefix[j..]
  {
  }
}
