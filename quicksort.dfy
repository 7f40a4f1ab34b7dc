/**
 * The two quicksort kernels of Task1.py: the deterministic one, whose pivot
 * is the first, last or middle element and whose partition is a loop that
 * appends to three lists, and the randomized one, whose pivot sits at a
 * random index and whose partition is three list comprehensions. Both sort
 * a copy of the caller's list.
 */
module QuickSort {
  import opened Wrappers

  /** Non-decreasing order. */
  ghost predicate Sorted(s: seq<int>)
  {
    forall i, j :: 0 <= i < j < |s| ==> s[i] <= s[j]
  }

  // ---------------------------------------------------------------------------
  // Three-way partition
  // ---------------------------------------------------------------------------

  /** Which of `left`, `middle`, `right` an element goes to. */
  datatype Side = Less | Equal | Greater

  /** `x < pivot`, else `x == pivot`, else the rest. */
  function Classify(x: int, pivot: int): Side
  {
    if x < pivot then Less else if x == pivot then Equal else Greater
  }

  /** The elements of `s` on one side of `pivot`, in their order in `s`:
      `[x for x in s if ...]`. */
  function Part(s: seq<int>, pivot: int, side: Side): (r: seq<int>)
    ensures |r| <= |s|
    ensures forall x :: x in r ==> Classify(x, pivot) == side
  {
    if s == [] then []
    else
      var last := s[|s| - 1];
      Part(s[..|s| - 1], pivot, side) + (if Classify(last, pivot) == side then [last] else [])
  }

  /** Scanning one more element extends the part it belongs to. */
  lemma PartAppend(s: seq<int>, x: int, pivot: int, side: Side)
    ensures Part(s + [x], pivot, side) ==
      Part(s, pivot, side) + (if Classify(x, pivot) == side then [x] else [])
  {
    assert (s + [x])[..|s|] == s;
  }

  /** Every element of `s` lands in exactly one of the three parts. */
  lemma PartitionSplits(s: seq<int>, pivot: int)
    ensures multiset(Part(s, pivot, Less)) + multiset(Part(s, pivot, Equal)) + multiset(Part(s, pivot, Greater))
            == multiset(s)
    ensures |Part(s, pivot, Less)| + |Part(s, pivot, Equal)| + |Part(s, pivot, Greater)| == |s|
  {
    PartsPermute(s, pivot);
    calc {
      |Part(s, pivot, Less)| + |Part(s, pivot, Equal)| + |Part(s, pivot, Greater)|;
      |multiset(Part(s, pivot, Less)) + multiset(Part(s, pivot, Equal)) + multiset(Part(s, pivot, Greater))|;
      |multiset(s)|;
    }
  }

  lemma {:induction false} PartsPermute(s: seq<int>, pivot: int)
    ensures multiset(Part(s, pivot, Less)) + multiset(Part(s, pivot, Equal)) + multiset(Part(s, pivot, Greater))
            == multiset(s)
  {
    if s != [] {
      var front, last := s[..|s| - 1], s[|s| - 1];
      PartsPermute(front, pivot);
      assert multiset(s) == multiset(front) + multiset{last} by {
        assert s == front + [last];
      }
      PartGrows(s, pivot, Less);
      PartGrows(s, pivot, Equal);
      PartGrows(s, pivot, Greater);
    }
  }

  /** The part of `s` is the part of all but its last element, plus that
      element when it belongs to this side. */
  lemma PartGrows(s: seq<int>, pivot: int, side: Side)
    requires s != []
    ensures var last := s[|s| - 1];
      multiset(Part(s, pivot, side)) ==
        multiset(Part(s[..|s| - 1], pivot, side)) + (if Classify(last, pivot) == side then multiset{last} else multiset{})
  {
  }

  /** A pivot taken from `s` lands in the middle part, so neither side part
      holds all of `s`. */
  lemma PivotShrinks(s: seq<int>, pivot: int)
    requires pivot in s
    ensures Part(s, pivot, Equal) != []
    ensures |Part(s, pivot, Less)| < |s| && |Part(s, pivot, Greater)| < |s|
  {
    PartitionSplits(s, pivot);
    assert pivot in multiset(s);
    assert pivot !in Part(s, pivot, Less) && pivot !in Part(s, pivot, Greater);
    assert pivot in multiset(Part(s, pivot, Equal));
  }

  /** Two sorted sequences, every element of the first at most every element
      of the second, concatenate to a sorted sequence. */
  lemma SortedConcat(a: seq<int>, b: seq<int>)
    requires Sorted(a) && Sorted(b)
    requires forall x, y :: x in a && y in b ==> x <= y
    ensures Sorted(a + b)
  {
    var r := a + b;
    forall i, j | 0 <= i < j < |r| ensures r[i] <= r[j] {
      if j < |a| {
        assert r[i] == a[i] && r[j] == a[j];
      } else if i >= |a| {
        assert r[i] == b[i - |a|] && r[j] == b[j - |a|];
      } else {
        assert r[i] in a && r[j] in b;
      }
    }
  }

  /** Sorting the two side parts and putting the middle between them gives a
      sorted permutation of `s`. */
  lemma JoinSorted(s: seq<int>, pivot: int, sortedLess: seq<int>, sortedGreater: seq<int>)
    requires Sorted(sortedLess) && multiset(sortedLess) == multiset(Part(s, pivot, Less))
    requires Sorted(sortedGreater) && multiset(sortedGreater) == multiset(Part(s, pivot, Greater))
    ensures Sorted(sortedLess + Part(s, pivot, Equal) + sortedGreater)
    ensures multiset(sortedLess + Part(s, pivot, Equal) + sortedGreater) == multiset(s)
  {
    var middle := Part(s, pivot, Equal);
    PartitionSplits(s, pivot);
    forall x | x in sortedLess ensures x < pivot {
      assert x in multiset(Part(s, pivot, Less));
      assert Classify(x, pivot) == Less;
    }
    forall x | x in sortedGreater ensures x > pivot {
      assert x in multiset(Part(s, pivot, Greater));
      assert Classify(x, pivot) == Greater;
    }
    assert Sorted(middle) by {
      forall i, j | 0 <= i < j < |middle| ensures middle[i] <= middle[j] {
        assert middle[i] in middle && middle[j] in middle;
      }
    }
    SortedConcat(sortedLess, middle);
    forall x, y | x in sortedLess + middle && y in sortedGreater ensures x <= y {
      assert x in sortedLess || x in middle;
    }
    SortedConcat(sortedLess + middle, sortedGreater);
  }

  /** Two sorted sequences with the same elements are equal: the sorted
      permutation of a list is unique. */
  lemma {:induction false} SortedPermutationUnique(a: seq<int>, b: seq<int>)
    requires Sorted(a) && Sorted(b) && multiset(a) == multiset(b)
    ensures a == b
    decreases |a|
  {
    if a != [] {
      assert |b| == |a| by {
        assert |multiset(a)| == |multiset(b)|;
      }
      SortedHeadsAgree(a, b);
      DropHead(a);
      DropHead(b);
      SortedPermutationUnique(a[1..], b[1..]);
      assert a == [a[0]] + a[1..] && b == [b[0]] + b[1..];
    } else {
      assert |multiset(b)| == 0;
    }
  }

  /** Two sorted non-empty arrangements of one multiset start alike. */
  lemma SortedHeadsAgree(a: seq<int>, b: seq<int>)
    requires Sorted(a) && Sorted(b) && multiset(a) == multiset(b) && a != [] && b != []
    ensures a[0] == b[0]
  {
    assert a[0] in multiset(b) && b[0] in multiset(a);
    var k :| 0 <= k < |b| && b[k] == a[0];
    var m :| 0 <= m < |a| && a[m] == b[0];
    assert b[0] <= b[k] && a[0] <= a[m];
  }

  /** Dropping the head removes exactly one copy of it. */
  lemma DropHead(a: seq<int>)
    requires a != []
    ensures multiset(a[1..]) == multiset(a) - multiset{a[0]}
    ensures Sorted(a) ==> Sorted(a[1..])
  {
    assert a == [a[0]] + a[1..];
  }

  // ---------------------------------------------------------------------------
  // The deterministic kernel
  // ---------------------------------------------------------------------------

  /** The three accepted values of `pivot_choice`. */
  datatype PivotRule = First | Last | Middle

  /** `pivot_choice` as the kernel reads it; any other string is refused. */
  function ParsePivotChoice(choice: string): Option<PivotRule>
  {
    if choice == "first" then Some(First)
    else if choice == "last" then Some(Last)
    else if choice == "middle" then Some(Middle)
    else None
  }

  /** Where the pivot sits in a list of length `n`: index 0, -1 or `n // 2`. */
  function PivotIndex(rule: PivotRule, n: nat): (i: nat)
    requires n >= 2
    ensures i < n
  {
    match rule
    case First => 0
    case Last => n - 1
    case Middle => n / 2
  }

  /** The inner `quicksort_recursive` of `deterministic_quick_sort_with_time`
      for an accepted pivot choice. */
  method DeterministicKernel(data: seq<int>, rule: PivotRule) returns (r: seq<int>)
    ensures Sorted(r) && multiset(r) == multiset(data)
    ensures |data| < 2 ==> r == data
    decreases |data|
  {
    if |data| < 2 {
      return data;
    }
    var pivot := data[PivotIndex(rule, |data|)];
    var left, middle, right := [], [], [];
    for i := 0 to |data|
      invariant left == Part(data[..i], pivot, Less)
      invariant middle == Part(data[..i], pivot, Equal)
      invariant right == Part(data[..i], pivot, Greater)
    {
      var x := data[i];
      assert data[..i + 1] == data[..i] + [x];
      PartAppend(data[..i], x, pivot, Less);
      PartAppend(data[..i], x, pivot, Equal);
      PartAppend(data[..i], x, pivot, Greater);
      if x < pivot {
        left := left + [x];
      } else if x == pivot {
        middle := middle + [x];
      } else {
        right := right + [x];
      }
    }
    assert data[..|data|] == data;
    PivotShrinks(data, pivot);
    var sortedLeft := DeterministicKernel(left, rule);
    var sortedRight := DeterministicKernel(right, rule);
    JoinSorted(data, pivot, sortedLeft, sortedRight);
    r := sortedLeft + middle + sortedRight;
  }

  /** The error `deterministic_quick_sort_with_time` raises. */
  datatype SortError = InvalidPivotChoice

  /** `deterministic_quick_sort_with_time(arr, pivot_choice)` without the
      timing: the caller's list is copied and left alone. The pivot choice
      defaults to `"middle"`. An unknown pivot choice is an error, but only
      for a list of at least two elements. */
  method DeterministicQuickSort(arr: array<int>, pivotChoice: string := "middle") returns (r: Result<seq<int>, SortError>)
    ensures r.Failure? <==> arr.Length >= 2 && ParsePivotChoice(pivotChoice).None?
    ensures r.Success? ==> Sorted(r.value) && multiset(r.value) == multiset(arr[..])
    ensures arr.Length < 2 ==> r == Success(arr[..])
    ensures r.Success? ==> forall draw :: ValidDraw(draw) ==> r.value == RandomizedKernel(arr[..], draw)
  {
    var copy := arr[..];
    if |copy| < 2 {
      return Success(copy);
    }
    match ParsePivotChoice(pivotChoice)
    case None =>
      r := Failure(InvalidPivotChoice);
    case Some(rule) =>
      var sorted := DeterministicKernel(copy, rule);
      forall draw | ValidDraw(draw) ensures sorted == RandomizedKernel(copy, draw) {
        SortedPermutationUnique(sorted, RandomizedKernel(copy, draw));
      }
      r := Success(sorted);
  }

  // ---------------------------------------------------------------------------
  // The randomized kernel
  // ---------------------------------------------------------------------------

  /** A source of pivot indices: for every list of length at least 2 it
      yields an index of that list, as `random.randint(0, len(data) - 1)`. */
  ghost predicate ValidDraw(draw: seq<int> -> nat)
  {
    forall d :: |d| >= 2 ==> draw(d) < |d|
  }

  /** The inner `quicksort_recursive` of `randomized_quick_sort_with_time`,
      with the random index supplied by `draw`. */
  function RandomizedKernel(data: seq<int>, draw: seq<int> -> nat): (r: seq<int>)
    requires ValidDraw(draw)
    ensures Sorted(r) && multiset(r) == multiset(data)
    ensures |data| < 2 ==> r == data
    decreases |data|
  {
    if |data| < 2 then data
    else
      var pivot := data[draw(data)];
      PivotShrinks(data, pivot);
      var sortedLeft := RandomizedKernel(Part(data, pivot, Less), draw);
      var sortedRight := RandomizedKernel(Part(data, pivot, Greater), draw);
      JoinSorted(data, pivot, sortedLeft, sortedRight);
      sortedLeft + Part(data, pivot, Equal) + sortedRight
  }

  /** Whatever indices are drawn, the randomized kernel returns the same list. */
  lemma RandomizedIgnoresDraw(data: seq<int>, draw1: seq<int> -> nat, draw2: seq<int> -> nat)
    requires ValidDraw(draw1) && ValidDraw(draw2)
    ensures RandomizedKernel(data, draw1) == RandomizedKernel(data, draw2)
  {
    SortedPermutationUnique(RandomizedKernel(data, draw1), RandomizedKernel(data, draw2));
  }

  /** `randomized_quick_sort_with_time(arr)` without the timing: the caller's
      list is copied and left alone. */
  method RandomizedQuickSort(arr: array<int>, draw: seq<int> -> nat) returns (r: seq<int>)
    requires ValidDraw(draw)
    ensures Sorted(r) && multiset(r) == multiset(arr[..])
    ensures arr.Length < 2 ==> r == arr[..]
  {
    var copy := arr[..];
    r := RandomizedKernel(copy, draw);
  }
}
