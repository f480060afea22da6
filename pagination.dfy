/**
 * The pure arithmetic of the `GET /students` list: defaulting the query
 * parameters, the page offset, the page count, the rows PostgreSQL's
 * `LIMIT ... OFFSET ...` keeps, and the decimal placeholder numbers.
 */
module Pagination {
  import opened Wrappers

  /**
   * `parseInt(x) || fallback`: NaN and 0 are falsy in JavaScript, so both
   * give way to the fallback; every other integer, negative ones included,
   * is kept.
   */
  function OrDefault(parsed: Option<int>, fallback: int): (r: int)
    ensures parsed.Some? && parsed.value != 0 ==> r == parsed.value
    ensures parsed.None? || parsed.value == 0 ==> r == fallback
  {
    if parsed.None? || parsed.value == 0 then fallback else parsed.value
  }

  /** The page number the list handler works with (default 1); never 0. */
  function PageOf(pageArg: Option<int>): (page: int)
    ensures page != 0
  {
    OrDefault(pageArg, 1)
  }

  /** The page size the list handler works with (default 5); never 0, so dividing by it is safe. */
  function LimitOf(limitArg: Option<int>): (limit: int)
    ensures limit != 0
  {
    OrDefault(limitArg, 5)
  }

  /**
   * Defaulting never turns a usable value into an unusable one: the page is
   * below 1, or the limit below 1, only when the client sent a negative number.
   */
  lemma NegativeOnlyWhenAsked(pageArg: Option<int>, limitArg: Option<int>)
    ensures PageOf(pageArg) < 1 <==> pageArg.Some? && pageArg.value < 0
    ensures LimitOf(limitArg) < 1 <==> limitArg.Some? && limitArg.value < 0
  {
  }

  /** `req.query.search || ''`. */
  function SearchOrEmpty(searchArg: Option<string>): string {
    if searchArg.Some? then searchArg.value else ""
  }

  /** The ILIKE pattern bound to `$1`: the search text between two `%` wildcards. */
  function Pattern(search: string): string {
    "%" + search + "%"
  }

  /** Rows skipped before the page: `(page - 1) * limit`. */
  function PageOffset(page: int, limit: int): int {
    (page - 1) * limit
  }

  /** `Math.ceil(count / limit)` for a non-zero integer limit. */
  function CeilDiv(count: nat, limit: int): int
    requires limit != 0
  {
    if limit > 0 then (count + limit - 1) / limit else -(count / -limit)
  }

  /**
   * `CeilDiv` is the least integer not below the exact quotient `count / limit`,
   * for either sign of the limit.
   */
  lemma CeilDivBounds(count: nat, limit: int)
    requires limit != 0
    ensures var pages := CeilDiv(count, limit);
            limit > 0 ==> (pages - 1) * limit < count <= pages * limit
    ensures var pages := CeilDiv(count, limit);
            limit < 0 ==> pages * limit <= count < (pages - 1) * limit
  {
    if limit > 0 {
      var q := (count + limit - 1) / limit;
      assert q * limit + (count + limit - 1) % limit == count + limit - 1;
    } else {
      var q := count / -limit;
      assert q * -limit + count % -limit == count;
    }
  }

  /** No rows means no pages, and a positive page size gives a non-negative page count. */
  lemma CeilDivZero(count: nat, limit: int)
    requires limit > 0
    ensures CeilDiv(count, limit) >= 0
    ensures CeilDiv(count, limit) == 0 <==> count == 0
  {
    var p := CeilDiv(count, limit);
    CeilDivBounds(count, limit);
    if p > 0 {
      assert (p - 1) * limit >= 0;
    }
  }

  /**
   * The rows `LIMIT limit OFFSET offset` keeps of an ordered result: at most
   * `limit` of them, starting with the row at position `offset`.
   */
  function Window<T>(rows: seq<T>, offset: nat, limit: nat): (w: seq<T>)
    ensures |w| <= limit
  {
    if offset >= |rows| then [] else rows[offset..if offset + limit <= |rows| then offset + limit else |rows|]
  }

  /** The window holds `min(limit, |rows| - offset)` rows, the ones from position `offset` on. */
  lemma WindowContents<T>(rows: seq<T>, offset: nat, limit: nat)
    ensures var w := Window(rows, offset, limit);
            |w| == (if offset >= |rows| then 0 else if offset + limit <= |rows| then limit else |rows| - offset)
    ensures forall i :: 0 <= i < |Window(rows, offset, limit)| ==>
              Window(rows, offset, limit)[i] == rows[offset + i]
  {
  }

  /**
   * With a positive page size, row `i` of the ordered result is shown on page
   * `i / limit + 1`, at position `i % limit`, and that page is one of the
   * `CeilDiv(|rows|, limit)` pages the handler reports.
   */
  lemma {:induction false} PagesCoverRows<T>(rows: seq<T>, limit: int, i: nat)
    requires limit > 0 && i < |rows|
    ensures 1 <= i / limit + 1 <= CeilDiv(|rows|, limit)
    ensures PageOffset(i / limit + 1, limit) >= 0
    ensures var w := Window(rows, PageOffset(i / limit + 1, limit), limit);
            i % limit < |w| && w[i % limit] == rows[i]
  {
    var q, r := i / limit, i % limit;
    assert i == q * limit + r;
    assert q >= 0;
    assert PageOffset(q + 1, limit) == q * limit;
    var pages := CeilDiv(|rows|, limit);
    CeilDivBounds(|rows|, limit);
    assert q * limit <= i < |rows| <= pages * limit;
    WindowContents(rows, q * limit, limit);
  }

  /** Multiplying by a positive page size keeps the order of page numbers. */
  lemma MulMono(a: int, b: int, c: int)
    requires a <= b && c > 0
    ensures a * c <= b * c
  {
    assert b * c - a * c == (b - a) * c;
  }

  /**
   * Pages do not overlap: a position that lies inside page `p`'s window
   * belongs to page `i / limit + 1` and to no other page.
   */
  lemma PageOfPosition(limit: int, i: nat, p: int)
    requires limit > 0 && p >= 1
    requires PageOffset(p, limit) <= i < PageOffset(p, limit) + limit
    ensures p == i / limit + 1
  {
    var d := i / limit;
    assert i == d * limit + i % limit;
    if d > p - 1 {
      MulMono(p, d, limit);
      assert false;
    } else if d < p - 1 {
      MulMono(d + 1, p - 1, limit);
      assert false;
    }
  }

  /** The page after the last reported one is empty. */
  lemma PastLastPageIsEmpty<T>(rows: seq<T>, limit: int)
    requires limit > 0
    ensures CeilDiv(|rows|, limit) >= 0
    ensures PageOffset(CeilDiv(|rows|, limit) + 1, limit) >= |rows|
    ensures Window(rows, PageOffset(CeilDiv(|rows|, limit) + 1, limit), limit) == []
  {
    CeilDivZero(|rows|, limit);
  }

  function Digit(d: nat): (c: char)
    requires d < 10
    ensures '0' <= c <= '9'
  {
    ('0' as int + d) as char
  }

  /** Decimal digits of a natural number, as JavaScript's `+` writes a number into a string. */
  function DecimalString(n: nat): (s: string)
    ensures |s| >= 1
    ensures forall i :: 0 <= i < |s| ==> '0' <= s[i] <= '9'
  {
    if n < 10 then [Digit(n)] else DecimalString(n / 10) + [Digit(n % 10)]
  }

  /** The numbers the list query's two paging placeholders are written with. */
  lemma PlaceholderDigits()
    ensures DecimalString(2) == "2" && DecimalString(3) == "3"
  {
  }

  /** Reads back what `DecimalString` writes. */
  function DecimalValue(s: string): nat
    requires forall i :: 0 <= i < |s| ==> '0' <= s[i] <= '9'
  {
    if s == [] then 0 else DecimalValue(s[..|s| - 1]) * 10 + (s[|s| - 1] as int - '0' as int)
  }

  /** `DecimalString` loses nothing: the placeholder `$k` names parameter number `k`. */
  lemma {:induction false} DecimalRoundTrip(n: nat)
    ensures DecimalValue(DecimalString(n)) == n
  {
    var s := DecimalString(n);
    if n >= 10 {
      DecimalRoundTrip(n / 10);
      assert s[..|s| - 1] == DecimalString(n / 10);
    }
  }

}
