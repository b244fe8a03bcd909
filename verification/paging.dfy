/** The offset pagination of the vocabulary and role listings: clamp a
    negative offset to 0, count all rows, take at most one page of the
    ordered rows from the offset, and report `offset + PageSize` as the next
    offset. The sum is 32-bit `int` arithmetic, which wraps. */
module Paging {
  import opened Base
  import opened ApiResponses
  import opened Sorting

  /** The offset actually used (`Math.Max(0, offset)`). */
  function ClampOffset(offset: int): (r: nat)
    ensures offset >= 0 ==> r == offset
    ensures offset < 0 ==> r == 0
  {
    Max(0, offset)
  }

  /** One page of `ordered` (the rows after `OrderBy`), for an `int` offset
      and a page size. */
  function Page<T>(ordered: seq<T>, offset: int, pageSize: nat): (r: PagedData<T>)
    requires InInt32(offset) && InInt32(pageSize) && |ordered| <= Int32Max
    ensures r.totalCount == |ordered|
    ensures |r.items| == Min(pageSize, Max(0, |ordered| - ClampOffset(offset)))
    ensures forall i :: 0 <= i < |r.items| ==> r.items[i] == ordered[ClampOffset(offset) + i]
    ensures r.nextOffset == Wrap32(ClampOffset(offset) + pageSize)
    ensures r.hasMore <==> r.totalCount > r.nextOffset
  {
    var start := ClampOffset(offset);
    var from := Min(start, |ordered|);
    var upTo := Min(start + pageSize, |ordered|);
    var end := Wrap32(start + pageSize);
    PagedData(ordered[from..upTo], end, |ordered| > end, |ordered|)
  }

  /** `OrderBy(key).Skip(offset).Take(pageSize)` over a whole table: the
      page holds rows of the table, in ascending key order. */
  function SortedPage<T>(rows: seq<T>, key: T -> seq<int>, offset: int, pageSize: nat): (r: PagedData<T>)
    requires InInt32(offset) && InInt32(pageSize) && |rows| <= Int32Max
    ensures r == Page(SortBy(rows, key), offset, pageSize)
    ensures |r.items| == Min(pageSize, Max(0, |rows| - ClampOffset(offset)))
    ensures forall i :: 0 <= i < |r.items| ==> r.items[i] == SortBy(rows, key)[ClampOffset(offset) + i]
    ensures forall i :: 0 <= i < |r.items| ==> r.items[i] in rows
    ensures forall i, j :: 0 <= i < j < |r.items| ==> LexLe(key(r.items[i]), key(r.items[j]))
  {
    var sorted := SortBy(rows, key);
    var r := Page(sorted, offset, pageSize);
    forall i | 0 <= i < |r.items| ensures r.items[i] in rows {
      SortByMembers(rows, key, r.items[i]);
    }
    forall i, j | 0 <= i < j < |r.items| ensures LexLe(key(r.items[i]), key(r.items[j])) {
      assert r.items[i] == sorted[ClampOffset(offset) + i] && r.items[j] == sorted[ClampOffset(offset) + j];
    }
    r
  }

  /** Without wrap-around, `HasMore` says exactly that rows remain after
      this page. */
  lemma {:induction false} HasMoreIffRowsRemain<T>(ordered: seq<T>, offset: int, pageSize: nat)
    requires InInt32(offset) && InInt32(pageSize) && |ordered| <= Int32Max
    requires ClampOffset(offset) + pageSize <= Int32Max
    ensures Page(ordered, offset, pageSize).hasMore <==> ClampOffset(offset) + pageSize < |ordered|
    ensures Page(ordered, offset, pageSize).hasMore ==> |Page(ordered, offset, pageSize).items| == pageSize
  {
    var start := ClampOffset(offset);
    assert Wrap32(start + pageSize) == start + pageSize;
  }

  /** Following `NextOffset` visits the rows in order without gaps or
      repeats: two consecutive pages are the rows of both, in order. */
  lemma {:induction false} ConsecutivePages<T>(ordered: seq<T>, offset: int, pageSize: nat)
    requires InInt32(offset) && InInt32(pageSize) && |ordered| <= Int32Max
    requires ClampOffset(offset) + 2 * pageSize <= Int32Max
    ensures Page(ordered, offset, pageSize).items + Page(ordered, Page(ordered, offset, pageSize).nextOffset, pageSize).items
         == ordered[Min(ClampOffset(offset), |ordered|)..Min(ClampOffset(offset) + 2 * pageSize, |ordered|)]
  {
    var start := ClampOffset(offset);
    assert Wrap32(start + pageSize) == start + pageSize;
    var next := start + pageSize;
    assert ClampOffset(next) == next;
    assert Wrap32(next + pageSize) == next + pageSize;
    var a := Min(start, |ordered|);
    var b := Min(next, |ordered|);
    var c := Min(next + pageSize, |ordered|);
    assert ordered[a..b] + ordered[b..c] == ordered[a..c];
  }

  /** An offset within one page of `int.MaxValue` makes `offset + PageSize`
      wrap to a negative number, so `HasMore` is true (every count exceeds a
      negative number) although the page is empty whenever the offset is
      past the end. */
  lemma {:induction false} OverflowReportsMore<T>(ordered: seq<T>, offset: int, pageSize: nat)
    requires InInt32(offset) && InInt32(pageSize) && |ordered| <= Int32Max
    requires offset + pageSize > Int32Max && offset >= |ordered|
    ensures Page(ordered, offset, pageSize).nextOffset < 0
    ensures Page(ordered, offset, pageSize).hasMore
    ensures |Page(ordered, offset, pageSize).items| == 0
  {
    assert Wrap32(offset + pageSize) == offset + pageSize - 0x1_0000_0000 by {
      Wrap32Above(offset + pageSize);
    }
  }

  lemma Wrap32Above(n: int)
    requires Int32Max < n <= 2 * Int32Max
    ensures Wrap32(n) == n - 0x1_0000_0000
  {
  }
}
