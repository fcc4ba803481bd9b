/** PixelMEDIA.PixelCore.Helpers.CollectionHelper. */
module CollectionHelper {
  import opened Wrappers
  import opened Int32

  /** CollectionContains(value, collection): LINQ Contains with the default
      (value) equality. */
  function CollectionContains<T(==)>(value: T, collection: seq<T>): (r: bool)
    ensures r <==> value in collection
  {
    if collection == [] then false
    else collection[0] == value || CollectionContains(value, collection[1..])
  }

  function Min(a: int, b: int): int { if a <= b then a else b }
  function Max(a: int, b: int): int { if a >= b then a else b }

  /** TakePage(collection, pageNumber, pageSize):
      collection.Skip((pageNumber - 1) * pageSize).Take(pageSize), with the
      offset computed in unchecked 32-bit arithmetic. Skip of a negative
      count skips nothing; Take of a non-positive count takes nothing. */
  function TakePage<T>(collection: seq<T>, pageNumber: Int32, pageSize: Int32): (r: seq<T>)
    ensures |r| <= Max(pageSize, 0)
  {
    var skip := Wrap(Wrap(pageNumber - 1) * pageSize);
    var lo := Min(Max(skip, 0), |collection|);
    var hi := Min(lo + Max(pageSize, 0), |collection|);
    collection[lo..hi]
  }

  /** For a page number of at least 1, a non-negative size and no overflow,
      page p holds the elements at [(p-1)*size, min(n, p*size)), in order. */
  lemma TakePageSlice<T>(collection: seq<T>, pageNumber: Int32, pageSize: Int32)
    requires pageNumber >= 1 && pageSize >= 0
    requires InRange(pageNumber * pageSize)
    ensures var first := (pageNumber - 1) * pageSize;
            var n := |collection|;
            TakePage(collection, pageNumber, pageSize) ==
              if first >= n then [] else collection[first..Min(n, pageNumber * pageSize)]
  {
    var first := (pageNumber - 1) * pageSize;
    assert 0 <= first <= pageNumber * pageSize by {
      assert (pageNumber - 1) * pageSize >= 0;
      assert pageNumber * pageSize == first + pageSize;
    }
    assert first + pageSize == pageNumber * pageSize;
  }

  /** A page number below 1 (without wrap-around) gives the first page, as
      Skip of a negative count skips nothing. */
  lemma TakePageBeforeFirst<T>(collection: seq<T>, pageNumber: Int32, pageSize: Int32)
    requires pageNumber <= 1 && pageSize >= 0
    requires InRange(pageNumber - 1) && InRange((pageNumber - 1) * pageSize)
    ensures TakePage(collection, pageNumber, pageSize) == collection[..Min(|collection|, pageSize)]
  {
    assert (pageNumber - 1) * pageSize <= 0 by {
      assert (1 - pageNumber) * pageSize >= 0;
    }
  }

  /** The offset wraps around: page 2^30 + 1 of size 4 starts at
      2^30 * 4 = 2^32, which wraps to 0, so it is the first page. */
  lemma TakePageOffsetWraps<T>(collection: seq<T>)
    ensures TakePage(collection, 0x4000_0001, 4) == collection[..Min(|collection|, 4)]
  {
    assert Wrap(0x4000_0000 * 4) == 0;
  }

  /** GetNthRoundRobinItem(list, position): a negative position is first moved
      to `count + position % count` (C#'s truncating %), then wrapped with
      `% count`. An empty list divides by zero. */
  function GetNthRoundRobinItem<T>(list: seq<T>, position: Int32): (r: Result<T>)
    ensures list == [] ==> r == Err(DivideByZero)
    ensures list != [] ==> r == Ok(list[position % |list|])
  {
    var count := |list|;
    if count == 0 then Err(DivideByZero)
    else
      var p := if position < 0 then count + Rem(position, count) else position;
      assert p >= 0;
      RoundRobinShift(position, count);
      Ok(list[Rem(p, count)])
  }

  /** The negative-position adjustment agrees with the Euclidean modulo. */
  lemma RoundRobinShift(position: int, count: int)
    requires count > 0
    ensures var p := if position < 0 then count + Rem(position, count) else position;
            p >= 0 && Rem(p, count) == position % count
  {
    if position < 0 {
      var r := (-position) % count;
      var q := (-position) / count;
      DivMod(-position, count);
      assert Rem(position, count) == -r;
      if r == 0 {
        ModUnique(count, 1, count, 0);
        NegMul(q, count);
        ModUnique(position, -q, count, 0);
      } else {
        ModUnique(count - r, 0, count, count - r);
        NegMul(q + 1, count);
        ModUnique(position, -q - 1, count, count - r);
      }
    }
  }

  lemma DivMod(a: int, n: int)
    requires n > 0
    ensures a == (a / n) * n + a % n
  {
  }

  lemma NegMul(q: int, n: int)
    ensures (-q) * n == -(q * n)
    ensures (q + 1) * n == q * n + n
  {
  }

  /** Round-robin indexing has period count. */
  lemma RoundRobinPeriodic<T>(list: seq<T>, position: Int32)
    requires list != [] && InRange(position + |list|)
    ensures GetNthRoundRobinItem(list, position) == GetNthRoundRobinItem(list, position + |list|)
  {
    ModAddPeriod(position, |list|);
  }

  /** The integers first, first + 1, ..., last. */
  function Range(first: int, last: int): (r: seq<int>)
    ensures first <= last ==> |r| == last - first + 1
    ensures first > last ==> r == []
    ensures forall k :: 0 <= k < |r| ==> r[k] == first + k
  {
    if first > last then [] else seq(last - first + 1, k => first + k)
  }

  /** InclusiveRangeList(first, last). The loop counter is an Int32 that
      `i <= last` never stops when last is Int32.MaxValue, so that case is
      excluded. */
  method InclusiveRangeList(first: Int32, last: Int32) returns (list: seq<Int32>)
    requires last < MaxValue
    ensures list == Range(first, last)
  {
    list := [];
    var i: int := first;
    while i <= last
      invariant first <= i <= Max(first, last + 1)
      invariant list == Range(first, i - 1)
      decreases last - i
    {
      list := list + [i];
      i := i + 1;
    }
  }

  /** InclusiveRangeList(last) == InclusiveRangeList(0, last). */
  method InclusiveRangeListTo(last: Int32) returns (list: seq<Int32>)
    requires last < MaxValue
    ensures list == Range(0, last)
  {
    list := InclusiveRangeList(0, last);
  }

  /** InclusiveRangeArray(first, last): the list, copied into a new array. */
  method InclusiveRangeArray(first: Int32, last: Int32) returns (a: array<Int32>)
    requires last < MaxValue
    ensures fresh(a) && a[..] == Range(first, last)
  {
    var list := InclusiveRangeList(first, last);
    a := ToArray(list);
  }

  method InclusiveRangeArrayTo(last: Int32) returns (a: array<Int32>)
    requires last < MaxValue
    ensures fresh(a) && a[..] == Range(0, last)
  {
    var list := InclusiveRangeList(0, last);
    a := ToArray(list);
  }

  /** List<T>.ToArray(). */
  method ToArray<T(0)>(list: seq<T>) returns (a: array<T>)
    ensures fresh(a) && a[..] == list
  {
    a := new T[|list|];
    var i := 0;
    while i < |list|
      invariant 0 <= i <= |list|
      invariant a[..i] == list[..i]
    {
      a[i] := list[i];
      i := i + 1;
    }
  }

  /** MakeArray(params args): the params array itself. */
  method MakeArray<T>(args: array<T>) returns (r: array<T>)
    ensures r == args && r[..] == args[..]
  {
    r := args;
  }

  /** MakeList(params args): args.ToList(), a copy in the same order. */
  function MakeList<T>(args: seq<T>): (r: seq<T>)
    ensures |r| == |args| && forall i :: 0 <= i < |r| ==> r[i] == args[i]
  {
    args
  }
}
