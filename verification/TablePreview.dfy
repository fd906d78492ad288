/** Paging of table previews: `QueryTablePreview` over a table in a fixed row order, with Go's 64-bit arithmetic. */
module TablePreview {

  const INT_MAX: int := 0x7FFF_FFFF_FFFF_FFFF

  predicate IsInt(x: int) {
    -INT_MAX - 1 <= x <= INT_MAX
  }

  /** The value a 64-bit int holds after an operation whose mathematical result is x. */
  function Wrap(x: int): (r: int)
    ensures IsInt(r)
    ensures r == x <==> IsInt(x)
    ensures (x - r) % (2 * (INT_MAX + 1)) == 0
  {
    (x + INT_MAX + 1) % (2 * (INT_MAX + 1)) - INT_MAX - 1
  }

  datatype Preview<T> = Preview(rows: seq<T>, total: int) | QueryFailed

  function Min(a: int, b: int): int {
    if a <= b then a else b
  }

  /** What a page should show: its slice of the rows below the cap. */
  function Page<T>(table: seq<T>, page: int, pageSize: int, maxRows: nat): seq<T>
    requires page >= 1 && pageSize >= 1
  {
    var total := Min(|table|, maxRows);
    var from := (page - 1) * pageSize;
    if from < 0 || from >= total then [] else table[from..Min(from + pageSize, total)]
  }

  /** The offset as the code computes it. */
  function OffsetOf(page: int, pageSize: int): int {
    Wrap((page - 1) * pageSize)
  }

  /** The limit and offset of the issued query, if one is issued. */
  datatype Query = NoQuery | Query(limit: int, offset: int)

  /** What LIMIT and OFFSET select. */
  function Selected<T>(table: seq<T>, limit: int, offset: int): seq<T>
    requires limit >= 0 && offset >= 0
  {
    if offset >= |table| then [] else table[offset..Min(offset + limit, |table|)]
  }

  /** `LIMIT limit OFFSET offset`: the database refuses negative values. */
  method Select<T>(table: seq<T>, limit: int, offset: int) returns (ok: bool, rows: seq<T>)
    ensures ok <==> limit >= 0 && offset >= 0
    ensures ok ==> rows == Selected(table, limit, offset)
  {
    rows := [];
    if limit < 0 || offset < 0 {
      return false, [];
    }
    ok := true;
    var i := offset;
    while i < |table| && i - offset < limit
      invariant offset <= i
      invariant offset <= |table| ==> i <= Min(offset + limit, |table|) && rows == table[offset..i]
      invariant offset > |table| ==> rows == [] && i == offset
    {
      rows := rows + [table[i]];
      i := i + 1;
    }
  }

  /** The query issued for a page of a table that counts `total` rows up to the cap. */
  function QueryOf(total: nat, page: int, pageSize: int): Query {
    var from := OffsetOf(page, pageSize);
    if from >= total then NoQuery
    else Query(if Wrap(from + pageSize) > total then Wrap(total - from) else pageSize, from)
  }

  /** The answer to a page, as `QueryTablePreview` gives it. */
  function PreviewOf<T>(table: seq<T>, page: int, pageSize: int, maxRows: nat): Preview<T> {
    var total := Min(|table|, maxRows);
    match QueryOf(total, page, pageSize)
    case NoQuery => Preview([], total)
    case Query(limit, from) => if limit < 0 || from < 0 then QueryFailed else Preview(Selected(table, limit, from), total)
  }

  method QueryTablePreview<T>(table: seq<T>, page0: int, pageSize0: int, maxRows: nat) returns (r: Preview<T>, query: Query)
    requires IsInt(page0) && IsInt(pageSize0) && IsInt(maxRows) && IsInt(|table|)
    ensures r == PreviewOf(table, if page0 < 1 then 1 else page0, if pageSize0 <= 0 then 10 else pageSize0, maxRows)
    ensures query == QueryOf(Min(|table|, maxRows), if page0 < 1 then 1 else page0, if pageSize0 <= 0 then 10 else pageSize0)
  {
    hide OffsetOf, Wrap, Selected;
    var page, pageSize := page0, pageSize0;
    if page < 1 {
      page := 1;
    }
    if pageSize <= 0 {
      pageSize := 10;
    }
    var totalCount: int := |table|;
    if totalCount > maxRows {
      totalCount := maxRows;
    }
    var offset := OffsetOf(page, pageSize);
    if offset >= totalCount {
      return Preview([], totalCount), NoQuery;
    }
    var limit := pageSize;
    if Wrap(offset + limit) > totalCount {
      limit := Wrap(totalCount - offset);
    }
    query := Query(limit, offset);
    var ok, rows := Select(table, limit, offset);
    r := if ok then Preview(rows, totalCount) else QueryFailed;
  }

  /** `previewTable`'s cap; any cap below half the integer range would do. */
  const MAX_ROWS := 50

  predicate ProperCap(maxRows: nat) {
    maxRows <= INT_MAX / 2
  }

  lemma OffsetNonNegative(page: int, pageSize: int)
    requires page >= 1 && pageSize >= 1
    ensures (page - 1) * pageSize >= 0
    ensures page >= 2 ==> (page - 1) * pageSize >= pageSize
  {
    if page >= 2 {
      assert (page - 1) * pageSize == pageSize + (page - 2) * pageSize;
    }
  }

  /** Without overflow every page is right, and every issued query stays within the capped table. */
  lemma PageIsRight<T>(table: seq<T>, page: int, pageSize: int, maxRows: nat)
    requires 1 <= page <= INT_MAX && 1 <= pageSize <= INT_MAX && ProperCap(maxRows) && IsInt(|table|)
    requires (page - 1) * pageSize <= INT_MAX
    ensures PreviewOf(table, page, pageSize, maxRows) == Preview(Page(table, page, pageSize, maxRows), Min(|table|, maxRows))
    ensures match QueryOf(Min(|table|, maxRows), page, pageSize)
            case NoQuery => Page(table, page, pageSize, maxRows) == []
            case Query(limit, offset) => 0 <= offset && 0 < limit && offset + limit <= Min(|table|, maxRows)
  {
    var from := (page - 1) * pageSize;
    OffsetNonNegative(page, pageSize);
    assert Wrap(from) == from;
    if from < Min(|table|, maxRows) {
      assert page >= 2 ==> pageSize <= from;
      assert page == 1 ==> from == 0;
      assert Wrap(from + pageSize) == from + pageSize;
    }
  }

  /** When the product of page and page size overflows, the right answer is an empty page, because the true offset is past
      the cap.  The code gives it if and only if the wrapped offset happens to be past the cap as well. */
  lemma OverflowingPage<T>(table: seq<T>, page: int, pageSize: int, maxRows: nat)
    requires 1 <= page <= INT_MAX && 1 <= pageSize <= INT_MAX && ProperCap(maxRows) && IsInt(|table|)
    requires (page - 1) * pageSize > INT_MAX
    ensures Page(table, page, pageSize, maxRows) == []
    ensures PreviewOf(table, page, pageSize, maxRows) == Preview(Page(table, page, pageSize, maxRows), Min(|table|, maxRows))
            <==> Wrap((page - 1) * pageSize) >= Min(|table|, maxRows)
  {
    var total := Min(|table|, maxRows);
    var from := OffsetOf(page, pageSize);
    if 0 <= from < total {
      var limit := if Wrap(from + pageSize) > total then Wrap(total - from) else pageSize;
      assert limit >= 1 && from < |table|;
      assert |table[from..Min(from + limit, |table|)]| >= 1;
    }
  }

  /** Such a page exists: far beyond the end, the first rows come back. */
  lemma FirstRowsReappear()
    ensures (0x4000_0000_0000_0000 + 1 - 1) * 4 > INT_MAX
    ensures PreviewOf([7, 8, 9], 0x4000_0000_0000_0000 + 1, 4, MAX_ROWS) == Preview([7, 8, 9], 3)
  {
    assert Wrap(0x1_0000_0000_0000_0000) == 0;
  }

  // ---- Tiling --------------------------------------------------------------------------

  /** The rows that the answers to pages 1 to n bring, one after the other. */
  function FirstAnswers<T>(table: seq<T>, pageSize: int, maxRows: nat, n: nat): seq<T> {
    if n == 0 then []
    else
      var answer := PreviewOf(table, n, pageSize, maxRows);
      FirstAnswers(table, pageSize, maxRows, n - 1) + (if answer.Preview? then answer.rows else [])
  }

  lemma NextOffset(n: nat, pageSize: int)
    requires n >= 1 && pageSize >= 1
    ensures n * pageSize == (n - 1) * pageSize + pageSize && (n - 1) * pageSize >= 0
    ensures (n - 1 - 1) * pageSize <= (n - 1) * pageSize
  {
    OffsetNonNegative(n, pageSize);
    assert (n - 1 - 1) * pageSize == (n - 1) * pageSize - pageSize;
  }

  /** Each page goes on where the ones before it end. */
  lemma NextTile<T>(table: seq<T>, pageSize: int, maxRows: nat, n: nat)
    requires n >= 1 && pageSize >= 1
    ensures n * pageSize >= 0 && (n - 1) * pageSize >= 0
    ensures table[..Min((n - 1) * pageSize, Min(|table|, maxRows))] + Page(table, n, pageSize, maxRows)
            == table[..Min(n * pageSize, Min(|table|, maxRows))]
  {
    var total, from := Min(|table|, maxRows), (n - 1) * pageSize;
    NextOffset(n, pageSize);
    if from < total {
      assert table[..Min(from + pageSize, total)] == table[..from] + table[from..Min(from + pageSize, total)];
    }
  }

  /** Pages tile the table: the answers to the first n of them bring exactly its first n times page size rows, up to the cap,
      with no gap and no overlap. */
  lemma {:induction false} PagesTile<T>(table: seq<T>, pageSize: int, maxRows: nat, n: nat)
    requires 1 <= pageSize <= INT_MAX && n <= INT_MAX && ProperCap(maxRows) && IsInt(|table|)
    requires (n - 1) * pageSize <= INT_MAX
    ensures n * pageSize >= 0
    ensures FirstAnswers(table, pageSize, maxRows, n) == table[..Min(n * pageSize, Min(|table|, maxRows))]
  {
    hide PreviewOf, Page, ProperCap, IsInt;
    if n == 0 {
      assert table[..0] == [];
    } else {
      NextOffset(n, pageSize);
      PagesTile(table, pageSize, maxRows, n - 1);
      PageIsRight(table, n, pageSize, maxRows);
      NextTile(table, pageSize, maxRows, n);
    }
  }

  /** Beyond them the answers are empty. */
  lemma LaterPagesEmpty<T>(table: seq<T>, page: int, pageSize: int, maxRows: nat)
    requires 1 <= page <= INT_MAX && 1 <= pageSize <= INT_MAX && ProperCap(maxRows) && IsInt(|table|)
    requires Min(|table|, maxRows) <= (page - 1) * pageSize <= INT_MAX
    ensures PreviewOf(table, page, pageSize, maxRows) == Preview([], Min(|table|, maxRows))
  {
    hide PreviewOf;
    PageIsRight(table, page, pageSize, maxRows);
  }
}
