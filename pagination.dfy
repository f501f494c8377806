/**
 * The page arithmetic of GET /user/:user_id in routes/appointments.js: the page
 * number is `Number(page) || 1`, ten rows a page, and the query's LIMIT/OFFSET cut
 * the ordered result. The rows are taken in the query's own order.
 */
module Pagination {
  import opened Wrappers

  const PageSize: nat := 10

  /** `Number(req.query.page) || 1`, with None for NaN (an absent or non-numeric
      parameter): NaN and 0 mean page 1, any other number is kept, negative ones too. */
  function PageNumber(q: Option<int>): (p: int)
    ensures p != 0
    ensures q.None? || q.value == 0 ==> p == 1
    ensures q.Some? && q.value != 0 ==> p == q.value
  {
    if q.None? || q.value == 0 then 1 else q.value
  }

  /** `(page - 1) * limit`. */
  function Offset(page: int): int
  {
    (page - 1) * PageSize
  }

  /** `LIMIT 10 OFFSET offset` over `rows`; None for the query error a negative offset causes. */
  function Page<T>(rows: seq<T>, q: Option<int>): (r: Option<seq<T>>)
    ensures r.None? <==> PageNumber(q) < 1
    ensures r.Some? ==> |r.value| <= PageSize
    ensures r.Some? ==> forall k :: 0 <= k < |r.value| ==>
              (Offset(PageNumber(q)) + k < |rows| && r.value[k] == rows[Offset(PageNumber(q)) + k])
    ensures r.Some? && Offset(PageNumber(q)) + PageSize <= |rows| ==> |r.value| == PageSize
  {
    var off := Offset(PageNumber(q));
    if off < 0 then None
    else if off >= |rows| then Some([])
    else if off + PageSize <= |rows| then Some(rows[off..off + PageSize])
    else Some(rows[off..])
  }

  /** Row `i` of the result is on page `i / 10 + 1`, at position `i % 10`. */
  lemma RowPosition<T>(rows: seq<T>, i: nat)
    requires i < |rows|
    ensures Page(rows, Some(i / PageSize + 1)).Some?
    ensures var p := Page(rows, Some(i / PageSize + 1)).value;
            i % PageSize < |p| && p[i % PageSize] == rows[i]
  {
    var page := i / PageSize + 1;
    assert Offset(page) == i - i % PageSize;
  }

  /** Pages 1 to n, one after the other. */
  function FirstPages<T>(rows: seq<T>, n: nat): seq<T>
  {
    if n == 0 then [] else FirstPages(rows, n - 1) + Page(rows, Some(n)).value
  }

  /** Pages 1 to n are the first 10 n rows (all of them when there are fewer): going
      through the pages shows every row once, in order, and nothing else. */
  lemma {:induction false} FirstPagesArePrefix<T>(rows: seq<T>, n: nat)
    ensures FirstPages(rows, n) == rows[..if n * PageSize <= |rows| then n * PageSize else |rows|]
  {
    if n > 0 {
      FirstPagesArePrefix(rows, n - 1);
      var p := Page(rows, Some(n)).value;
      var off := Offset(n);
      assert off == (n - 1) * PageSize;
      if off >= |rows| {
        assert p == [];
      } else if off + PageSize <= |rows| {
        assert p == rows[off..off + PageSize];
        assert rows[..off] + rows[off..off + PageSize] == rows[..off + PageSize];
      } else {
        assert p == rows[off..];
        assert rows[..off] + rows[off..] == rows;
      }
    }
  }
}
