/**
 * The admin backend's response envelope: a code, a message and optional
 * data. The success factories carry code "200" and the fixed message
 * "操作成功"; an error carries the caller's code and message and no data.
 */
module ApiResult {
  import opened Common

  const SuccessCode: string := "200"
  const SuccessMsg: string := "操作成功"
  const ServerErrorCode: string := "500"

  datatype ApiResult<T> = ApiResult(code: string, msg: string, data: Option<T>)

  /** `Result.success(data)`. */
  function Success<T>(data: T): (r: ApiResult<T>)
    ensures r.code == SuccessCode && r.msg == SuccessMsg && r.data == Some(data)
  {
    ApiResult(SuccessCode, SuccessMsg, Some(data))
  }

  /** `Result.success()`: the success envelope with null data. */
  function SuccessEmpty<T>(): (r: ApiResult<T>)
    ensures r.code == SuccessCode && r.msg == SuccessMsg && r.data.None?
  {
    ApiResult(SuccessCode, SuccessMsg, None)
  }

  /** `Result.error(code, msg)`. */
  function Error<T>(code: string, msg: string): (r: ApiResult<T>)
    ensures r.code == code && r.msg == msg && r.data.None?
  {
    ApiResult(code, msg, None)
  }

  predicate IsSuccess<T>(r: ApiResult<T>)
  {
    r.code == SuccessCode
  }

  /**
   * A client reading only the code tells the factories apart: an error
   * envelope reads as a success only when its code is "200", and then it
   * differs from `success()` at most in its message.
   */
  lemma ErrorReadsAsSuccessOnlyWith200<T>(code: string, msg: string)
    ensures IsSuccess(Error<T>(code, msg)) <==> code == SuccessCode
    ensures Error<T>(code, msg) == SuccessEmpty<T>() <==> code == SuccessCode && msg == SuccessMsg
  {
  }
}

/**
 * MyBatis-Plus pagination under its pagination interceptor. `new Page<>(pageNum,
 * pageSize)` keeps a page number only when it is above 1, so anything lower
 * is the first page. A negative size switches paging off: no count query (the
 * total stays 0) and no limit. A size of 0 still counts the rows but returns
 * none of them.
 */
module Paging {
  import opened Common
  import opened Ordering

  /** The page number `Page` keeps: the one asked for when it is above 1, otherwise 1. */
  function CurrentPage(pageNum: int): (c: int)
    ensures c >= 1
    ensures pageNum >= 1 ==> c == pageNum
    ensures pageNum < 1 ==> c == 1
  {
    if pageNum > 1 then pageNum else 1
  }

  function Offset(pageNum: int, pageSize: int): (o: nat)
    requires pageSize >= 0
  {
    var c := CurrentPage(pageNum);
    assert (c - 1) * pageSize >= 0;
    (c - 1) * pageSize
  }

  function Min(a: int, b: int): int { if a <= b then a else b }

  /** The rows of page `pageNum` of the ordered result s: `LIMIT offset, size`, or every row when paging is off. */
  function Window<T>(s: seq<T>, pageNum: int, pageSize: int): (r: seq<T>)
    ensures pageSize >= 0 ==> |r| <= pageSize
    ensures pageSize < 0 ==> r == s
    ensures forall x :: x in r ==> x in s
  {
    if pageSize < 0 then s
    else
      var lo := Min(Offset(pageNum, pageSize), |s|);
      var hi := Min(Offset(pageNum, pageSize) + pageSize, |s|);
      assert forall x :: x in s[lo..hi] ==> x in s by {
        forall x | x in s[lo..hi] ensures x in s {
          var k :| lo <= k < hi && s[k] == x;
        }
      }
      s[lo..hi]
  }

  /** MyBatis-Plus `IPage`: one page of records, the number of matching rows, the page number kept and the size. */
  datatype Page<T> = Page(records: seq<T>, total: nat, current: int, size: int)

  /**
   * `page(new Page<>(pageNum, pageSize), wrapper)` over the rows the wrapper
   * selects, already in its order: the requested window, the count of every
   * matching row when paging is on, and the page number `Page` kept.
   */
  function PageOf<T>(rows: seq<T>, pageNum: int, pageSize: int): (p: Page<T>)
    ensures p.current == CurrentPage(pageNum) && p.size == pageSize
    ensures pageSize >= 0 ==> p.total == |rows| && |p.records| <= pageSize
    ensures pageSize == 0 ==> p.records == []
    ensures pageSize < 0 ==> p.total == 0 && p.records == rows
    ensures forall x :: x in p.records ==> x in rows
  {
    Page(Window(rows, pageNum, pageSize), if pageSize < 0 then 0 else |rows|, CurrentPage(pageNum), pageSize)
  }

  /** A page of an ordered result is in the same order. */
  lemma WindowSorted<T>(s: seq<T>, pageNum: int, pageSize: int, key: T -> int)
    requires SortedBy(s, key)
    ensures SortedBy(Window(s, pageNum, pageSize), key)
  {
    if pageSize >= 0 {
      var lo := Min(Offset(pageNum, pageSize), |s|);
      var hi := Min(Offset(pageNum, pageSize) + pageSize, |s|);
      var w := Window(s, pageNum, pageSize);
      assert w == s[lo..hi];
      forall i, j | 0 <= i < j < |w| ensures key(w[i]) <= key(w[j]) {
        assert w[i] == s[lo + i] && w[j] == s[lo + j];
      }
    }
  }

  /** A page of a result without repeats has no repeats. */
  lemma WindowDistinct<T>(s: seq<T>, pageNum: int, pageSize: int)
    requires NoDuplicates(s)
    ensures NoDuplicates(Window(s, pageNum, pageSize))
  {
    if pageSize >= 0 {
      var lo := Min(Offset(pageNum, pageSize), |s|);
      var hi := Min(Offset(pageNum, pageSize) + pageSize, |s|);
      var w := Window(s, pageNum, pageSize);
      assert w == s[lo..hi];
      forall i, j | 0 <= i < j < |w| ensures w[i] != w[j] {
        assert w[i] == s[lo + i] && w[j] == s[lo + j];
      }
    }
  }

  /** Two consecutive pages are adjacent slices of the ordered result: no row is skipped or shown twice. */
  lemma ConsecutivePagesAdjacent<T>(s: seq<T>, n: int, k: int)
    requires n >= 1 && k >= 1
    ensures Window(s, n, k) + Window(s, n + 1, k) == s[Min((n - 1) * k, |s|)..Min((n + 1) * k, |s|)]
  {
    var a := Min((n - 1) * k, |s|);
    var b := Min(n * k, |s|);
    var c := Min((n + 1) * k, |s|);
    assert (n + 1 - 1) * k == n * k;
    assert n * k == (n - 1) * k + k;
    assert Window(s, n, k) == s[a..b];
    assert Window(s, n + 1, k) == s[b..c];
    assert s[a..b] + s[b..c] == s[a..c];
  }
}
