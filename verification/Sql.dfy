/** Values, positional parameters and result pages, as far as the generated statements use them. */
module Sql {
  import opened Options

  datatype Value = Null | Text(text: string) | Int(n: int) | Time(at: int) | Bool(b: bool)

  /** The value bound to `$index`; parameters are numbered from one. */
  function Bound(binds: seq<Value>, index: nat): Option<Value> {
    if 1 <= index <= |binds| then Some(binds[index - 1]) else None
  }

  // ── Pages ──────────────────────────────────────────────────────────────────

  const TWO_63 := 0x8000_0000_0000_0000
  const TWO_64 := 0x1_0000_0000_0000_0000

  predicate IsI64(n: int) {
    -TWO_63 <= n < TWO_63
  }

  /** Two's complement wrap-around of 64-bit arithmetic. */
  function Wrap64(n: int): (w: int)
    ensures IsI64(w)
    ensures IsI64(n) ==> w == n
  {
    (n + TWO_63) % TWO_64 - TWO_63
  }

  /** `page`, with its default and lower bound. */
  function EffectivePage(page: Option<int>): (p: int)
    ensures p >= 1
  {
    match page
    case Some(p) => if p < 1 then 1 else p
    case None => 1
  }

  /** `per_page`, with its default and bounds. */
  function EffectivePerPage(perPage: Option<int>): (p: int)
    ensures 1 <= p <= 500
  {
    match perPage
    case Some(p) => if p < 1 then 1 else if p > 500 then 500 else p
    case None => 50
  }

  /** OFFSET and LIMIT. */
  function Slice<T>(rows: seq<T>, offset: nat, limit: nat): seq<T> {
    var from := if offset <= |rows| then offset else |rows|;
    var to := if from + limit <= |rows| then from + limit else |rows|;
    rows[from..to]
  }

  /** The rows of 1-based page `page`. */
  function PageOf<T>(rows: seq<T>, page: int, perPage: int): seq<T>
    requires page >= 1 && perPage >= 1
  {
    Offset(page, perPage);
    Slice(rows, (page - 1) * perPage, perPage)
  }

  lemma Offset(page: int, perPage: int)
    requires page >= 1 && perPage >= 1
    ensures (page - 1) * perPage >= 0
  {
  }

  function PageCount(total: nat, perPage: int): int {
    if perPage > 0 then (total + perPage - 1) / perPage else 0
  }

  /** The page count is the least number of pages that holds all rows. */
  lemma {:induction false} PageCountIsLeast(total: nat, perPage: int, n: nat)
    requires perPage >= 1
    ensures PageCount(total, perPage) >= 0
    ensures PageCount(total, perPage) * perPage >= total
    ensures n * perPage >= total ==> n >= PageCount(total, perPage)
  {
    var c := PageCount(total, perPage);
    var x := total + perPage - 1;
    DivisionBounds(x, perPage);
    assert c * perPage <= x < c * perPage + perPage;
    if n < c {
      MulMonotone(n + 1, c, perPage);
      assert (n + 1) * perPage == n * perPage + perPage;
    }
  }

  lemma DivisionBounds(x: int, d: int)
    requires d >= 1
    ensures (x / d) * d <= x < (x / d) * d + d
    ensures x >= 0 ==> x / d >= 0
  {
  }

  lemma MulMonotone(a: int, b: int, d: int)
    requires a <= b && d >= 0
    ensures a * d <= b * d
  {
  }

  /** The offset that the server computes is the mathematical one exactly when that fits 64 bits. */
  lemma OffsetFits(page: int, perPage: int)
    requires page >= 1 && perPage >= 1
    ensures Wrap64((page - 1) * perPage) == (page - 1) * perPage <==> (page - 1) * perPage < TWO_63
  {
    Offset(page, perPage);
  }

  /** A page number far beyond the last page wraps around to offset zero: the first page again. */
  lemma HugePageWraps<T>(rows: seq<T>)
    requires |rows| < TWO_63
    ensures var page := TWO_64 / 4 + 1;
      && IsI64(page)
      && Wrap64((page - 1) * 4) == 0
      && PageOf(rows, page, 4) == []
      && (rows != [] ==> Slice(rows, Wrap64((page - 1) * 4), 4) != [])
  {
  }

  /** No page up to the page count overflows. */
  lemma {:induction false} CountedPagesFit(total: nat, page: int, perPage: int)
    requires total < TWO_63 && perPage >= 1 && 1 <= page <= PageCount(total, perPage)
    ensures Wrap64((page - 1) * perPage) == (page - 1) * perPage < total
  {
    DivisionBounds(total + perPage - 1, perPage);
    MulMonotone(page, PageCount(total, perPage), perPage);
    assert page * perPage == (page - 1) * perPage + perPage;
    OffsetFits(page, perPage);
  }

  function FirstPages<T>(rows: seq<T>, count: nat, perPage: int): seq<T>
    requires perPage >= 1
  {
    if count == 0 then [] else FirstPages(rows, count - 1, perPage) + PageOf(rows, count, perPage)
  }

  lemma {:induction false} FirstPagesArePrefix<T>(rows: seq<T>, count: nat, perPage: int)
    requires perPage >= 1
    ensures count * perPage >= 0
    ensures FirstPages(rows, count, perPage) == Slice(rows, 0, count * perPage)
  {
    if count > 0 {
      FirstPagesArePrefix(rows, count - 1, perPage);
      var before := (count - 1) * perPage;
      assert count * perPage == before + perPage;
      SliceJoin(rows, before, perPage);
    }
  }

  lemma SliceJoin<T>(rows: seq<T>, a: nat, b: nat)
    ensures Slice(rows, 0, a) + Slice(rows, a, b) == Slice(rows, 0, a + b)
  {
  }

  /** Reading pages one to the page count gives every row once, in order. */
  lemma {:induction false} PagesTile<T>(rows: seq<T>, perPage: int)
    requires perPage >= 1
    ensures PageCount(|rows|, perPage) >= 0
    ensures FirstPages(rows, PageCount(|rows|, perPage), perPage) == rows
  {
    var n := PageCount(|rows|, perPage);
    PageCountIsLeast(|rows|, perPage, 0);
    FirstPagesArePrefix(rows, n, perPage);
  }
}
