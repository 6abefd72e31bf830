/** Offset reports: runtime/pagination/report.go and the parameter parsing it shares with request.go. */
module Reports {
  import opened Wrappers
  import opened Decimals
  import opened Int64

  const MAX_REPORT_PAGE := 100000
  const MAX_REPORT_OFFSET := 1000000
  const MAX_PAGE_LIMIT := 200
  const CURSOR_PARAMS := ["limit", "after", "before"]

  datatype ReportError =
    | BadLimits | Mixed | Repeated | Empty | InvalidPage | InvalidSize | TooDeep | NegativeTotal | Unbounded

  datatype ReportLimits = ReportLimits(defaultSize: int, maxSize: int, maxOffset: int)

  datatype Report = Report(number: int, size: int)

  datatype Totals = Totals(page: int, size: int, total: int, totalPages: int, hasMore: bool)

  type Query = map<string, seq<string>>

  /** Two's complement wrap-around to 64 bits. */
  function Wrap(n: int): (w: int)
    ensures IsInt64(w)
    ensures IsInt64(n) ==> w == n
  {
    (n + 0x8000_0000_0000_0000) % 0x1_0000_0000_0000_0000 - 0x8000_0000_0000_0000
  }

  predicate ValidLimits(l: ReportLimits) {
    1 <= l.defaultSize <= l.maxSize <= MAX_PAGE_LIMIT && 0 <= l.maxOffset <= MAX_REPORT_OFFSET
  }

  function NewReportLimits(defaultSize: int, maxSize: int, maxOffset: int): (r: Result<ReportLimits, ReportError>)
    ensures r.Ok? <==> 1 <= defaultSize <= maxSize <= 200 && 0 <= maxOffset <= 1000000
    ensures r == Ok(ReportLimits(defaultSize, maxSize, maxOffset)) || r == Err(BadLimits)
  {
    if defaultSize <= 0 then Err(BadLimits)
    else if maxSize <= 0 then Err(BadLimits)
    else if maxSize > MAX_PAGE_LIMIT then Err(BadLimits)
    else if defaultSize > maxSize then Err(BadLimits)
    else if maxOffset < 0 then Err(BadLimits)
    else if maxOffset > MAX_REPORT_OFFSET then Err(BadLimits)
    else Ok(ReportLimits(defaultSize, maxSize, maxOffset))
  }

  /** The number of rows to skip, in 64-bit arithmetic. */
  function Offset(r: Report): int {
    Wrap(Wrap(r.number - 1) * r.size)
  }

  predicate Bounded(r: Report) {
    1 <= r.number <= MAX_REPORT_PAGE && 1 <= r.size <= MAX_PAGE_LIMIT
  }

  lemma OffsetExact(r: Report)
    requires 1 <= r.number && 1 <= r.size && IsInt64((r.number - 1) * r.size) && IsInt64(r.number)
    ensures Offset(r) == (r.number - 1) * r.size
  {
  }

  /** Row i is read by the page, which never reads past the total. */
  predicate Reads(r: Report, total: int, i: int) {
    Offset(r) <= i < Offset(r) + r.size && 0 <= i < total
  }

  /** The least number of pages of this size that holds every row. */
  function Pages(total: int, size: int): (pages: int)
    requires total >= 0 && size > 0
  {
    if total % size == 0 then total / size else total / size + 1
  }

  lemma NextMultiple(q: int, size: int)
    ensures (q + 1) * size == q * size + size
  {
  }

  lemma {:induction false} TimesGrows(q: nat, size: int)
    requires size >= 1
    ensures q <= q * size == size * q
  {
    if q > 0 {
      TimesGrows(q - 1, size);
      NextMultiple(q - 1, size);
    }
  }

  lemma PagesCover(total: int, size: int)
    requires total >= 0 && size > 0
    ensures 0 <= Pages(total, size) <= total <= Pages(total, size) * size
    ensures total > 0 ==> (Pages(total, size) - 1) * size < total
  {
    var q, m := total / size, total % size;
    assert total == size * q + m;
    TimesGrows(q, size);
    NextMultiple(q, size);
    NextMultiple(q - 1, size);
  }

  lemma ProductsOrdered(a: nat, b: nat, c: nat)
    requires a <= b
    ensures 0 <= a * c <= b * c
  {
    assert b * c == a * c + (b - a) * c;
  }

  lemma OffsetBounded(r: Report)
    requires Bounded(r)
    ensures Offset(r) == (r.number - 1) * r.size && r.number * r.size == (r.number - 1) * r.size + r.size
    ensures 0 <= Offset(r) < MAX_REPORT_PAGE * MAX_PAGE_LIMIT
  {
    hide Offset, Wrap;
    ProductsOrdered(r.number - 1, MAX_REPORT_PAGE - 1, r.size);
    NextMultiple(r.number - 1, r.size);
    OffsetExact(r);
  }

  lemma MultiplesOrdered(a: int, b: int, size: int)
    requires a < b && size > 0
    ensures a * size + size <= b * size
  {
    var gap := b - a - 1;
    assert b == a + 1 + gap;
    assert (a + 1 + gap) * size == a * size + size + gap * size;
  }

  lemma MorePages(r: Report, total: int)
    requires Bounded(r) && total >= 0
    ensures r.number < Pages(total, r.size) <==> Offset(r) + r.size < total
  {
    var pages := Pages(total, r.size);
    PagesCover(total, r.size);
    OffsetBounded(r);
    assert r.number * r.size == Offset(r) + r.size;
    if r.number < pages {
      if r.number < pages - 1 { MultiplesOrdered(r.number, pages - 1, r.size); }
    } else if pages < r.number {
      MultiplesOrdered(pages, r.number, r.size);
    }
  }

  /** HasMore says whether a row past this page exists; TotalPages is zero exactly for an empty result set. */
  method ComputeTotals(r: Report, total: int) returns (t: Result<Totals, ReportError>)
    requires IsInt64(total) && IsInt64(r.number) && IsInt64(r.size)
    ensures t == if total < 0 then Err(NegativeTotal) else if !Bounded(r) then Err(Unbounded)
                 else Ok(Totals(r.number, r.size, total, Pages(total, r.size), Offset(r) + r.size < total))
  {
    if total < 0 {
      return Err(NegativeTotal);
    }
    if r.number < 1 || r.number > MAX_REPORT_PAGE {
      return Err(Unbounded);
    }
    if r.size < 1 || r.size > MAX_PAGE_LIMIT {
      return Err(Unbounded);
    }
    var size := r.size;
    var pages := total / size;
    PagesCover(total, size);
    if total % size != 0 {
      pages := Wrap(pages + 1);
    }
    MorePages(r, total);
    t := Ok(Totals(r.number, r.size, total, pages, r.number < pages));
  }

  predicate IsPage(n: int, total: int, size: int)
    requires total >= 0 && size > 0
  {
    1 <= n <= Pages(total, size)
  }

  lemma OffsetOfPage(total: int, size: int, n: int)
    requires IsInt64(total) && total >= 0 && 1 <= size && 1 <= n <= Pages(total, size)
    ensures Offset(Report(n, size)) == (n - 1) * size && 0 <= (n - 1) * size < total
  {
    hide Pages, Wrap;
    PagesCover(total, size);
    var pages := Pages(total, size);
    if n < pages { MultiplesOrdered(n - 1, pages - 1, size); }
    assert 0 * size == 0;
    if n > 1 { MultiplesOrdered(0, n - 1, size); }
    OffsetExact(Report(n, size));
  }

  lemma RowsPage(total: int, size: int, i: int)
    requires IsInt64(total) && 0 <= i < total && 1 <= size
    ensures 1 <= i / size + 1 <= Pages(total, size) && Reads(Report(i / size + 1, size), total, i)
  {
    hide Pages, Offset;
    var page, pages := i / size, Pages(total, size);
    PagesCover(total, size);
    assert i == page * size + i % size;
    if pages <= page {
      if pages < page { MultiplesOrdered(pages, page, size); }
    }
    OffsetOfPage(total, size, page + 1);
  }

  /** Pages 1 to TotalPages read every row exactly once, none of them is empty, and no 64-bit offset wraps. */
  lemma PagesPartitionRows(total: int, size: int)
    requires IsInt64(total) && total >= 0 && 1 <= size <= MAX_PAGE_LIMIT
    ensures forall i :: 0 <= i < total ==>
            IsPage(i / size + 1, total, size) && Reads(Report(i / size + 1, size), total, i)
    ensures forall i, n, m :: IsPage(n, total, size) && IsPage(m, total, size) ==>
              Reads(Report(n, size), total, i) && Reads(Report(m, size), total, i) ==> n == m
    ensures forall n :: IsPage(n, total, size) ==>
              Offset(Report(n, size)) == (n - 1) * size && Reads(Report(n, size), total, (n - 1) * size)
  {
    hide Offset, Pages;
    forall n | IsPage(n, total, size)
      ensures Offset(Report(n, size)) == (n - 1) * size && 0 <= (n - 1) * size < total
    {
      OffsetOfPage(total, size, n);
    }
    forall i | 0 <= i < total
      ensures IsPage(i / size + 1, total, size) && Reads(Report(i / size + 1, size), total, i)
    {
      RowsPage(total, size, i);
    }
    forall i, n, m | IsPage(n, total, size) && IsPage(m, total, size)
      && Reads(Report(n, size), total, i) && Reads(Report(m, size), total, i)
      ensures n == m
    {
      if n < m { MultiplesOrdered(n - 1, m - 1, size); }
      if m < n { MultiplesOrdered(m - 1, n - 1, size); }
    }
  }

  /** How many digits value has. */
  method DigitsIn(value: int) returns (digits: int)
    requires value >= 0
    ensures digits == |Decimal(value)|
  {
    digits := 1;
    var left := value;
    while left >= 10
      invariant left >= 0
      invariant digits + |Decimal(left)| - 1 == |Decimal(value)|
    {
      left := left / 10;
      digits := digits + 1;
    }
  }

  /** Whether raw is a plain decimal of at most maxDigits digits, and its value. */
  function DecimalValue(raw: string, maxDigits: int): (value: Option<int>)
    ensures value.Some? ==> value.value >= 0 && raw == Decimal(value.value) && |raw| <= maxDigits
    ensures forall v: nat :: raw == Decimal(v) && |raw| <= maxDigits ==> value == Some(v)
  {
    if raw == "" || |raw| > maxDigits || (|raw| > 1 && raw[0] == '0') then
      assert forall v: nat :: raw == Decimal(v) ==> |raw| > maxDigits by {
        forall v: nat | raw == Decimal(v) ensures |raw| > maxDigits { DecimalHasNoLeadingZero(v); }
      }
      None
    else if !(forall c :: c in raw ==> IsDigit(c)) then None
    else
      DecimalOfNumber(raw);
      assert forall v: nat :: raw == Decimal(v) ==> v == Number(raw) by {
        forall v: nat | raw == Decimal(v) ensures v == Number(raw) { NumberOfDecimal(v); }
      }
      Some(Number(raw))
  }

  /** The text is the plain decimal of a number between the bounds. */
  ghost predicate Spells(raw: string, low: int, high: int) {
    exists v: nat :: low <= v <= high && raw == Decimal(v)
  }

  /** What a query says about one optional parameter, without reference to how its text is scanned. */
  ghost predicate Resolves(query: Query, name: string, fallback: int, low: int, high: int, sentinel: ReportError,
                           r: Result<int, ReportError>)
  {
    var values := if name in query then query[name] else [];
    if |values| == 0 then r == Ok(fallback)
    else if |values| > 1 then r == Err(Repeated)
    else if values[0] == "" then r == Err(Empty)
    else if Spells(values[0], low, high) then r.Ok? && low <= r.value <= high && 0 <= r.value
      && values[0] == Decimal(r.value)
    else r == Err(sentinel)
  }

  function Single(query: Query, name: string): Result<Option<string>, ReportError> {
    var values := if name in query then query[name] else [];
    if |values| == 0 then Ok(None)
    else if |values| == 1 then if values[0] == "" then Err(Empty) else Ok(Some(values[0]))
    else Err(Repeated)
  }

  lemma DigitsSuffice(v: nat, high: nat)
    requires v <= high
    ensures |Decimal(v)| <= |Decimal(high)|
  {
    DecimalLength(high, |Decimal(high)|);
    DecimalLength(v, |Decimal(high)|);
  }

  /** Accepts exactly the plain decimals between the bounds: the digit ceiling refuses no number in range. */
  method ParseBoundedParameter(query: Query, name: string, fallback: int, low: int, high: int, sentinel: ReportError)
    returns (r: Result<int, ReportError>)
    requires high >= 0
    ensures Resolves(query, name, fallback, low, high, sentinel, r)
  {
    hide Decimal;
    var found := Single(query, name);
    if found.Err? {
      return Err(found.error);
    }
    if found.value.None? {
      return Ok(fallback);
    }
    var raw := found.value.value;
    var digits := DigitsIn(high);
    var value := DecimalValue(raw, digits);
    forall v: nat | v <= high && raw == Decimal(v) ensures value == Some(v) {
      DigitsSuffice(v, high);
    }
    if value.None? {
      return Err(sentinel);
    }
    if value.value < low || value.value > high {
      return Err(sentinel);
    }
    r := Ok(value.value);
  }

  predicate MentionsCursor(query: Query) {
    exists name :: name in CURSOR_PARAMS && name in query
  }

  /** Given the page number: the size, and the depth judged by the exact product. */
  ghost predicate ParsesSize(query: Query, limits: ReportLimits, number: int, r: Result<Report, ReportError>) {
    exists size :: Resolves(query, "size", limits.defaultSize, 1, limits.maxSize, InvalidSize, size)
      && r == if size.Err? then Err(size.error)
              else if (number - 1) * size.value > limits.maxOffset then Err(TooDeep)
              else Ok(Report(number, size.value))
  }

  ghost predicate ParsesNumbers(query: Query, limits: ReportLimits, r: Result<Report, ReportError>) {
    exists number :: Resolves(query, "page", 1, 1, MAX_REPORT_PAGE, InvalidPage, number)
      && if number.Err? then r == Err(number.error) else ParsesSize(query, limits, number.value, r)
  }

  ghost predicate ParsesTo(query: Query, limits: ReportLimits, r: Result<Report, ReportError>) {
    if limits.defaultSize == 0 then r == Err(BadLimits)
    else if MentionsCursor(query) then r == Err(Mixed)
    else ParsesNumbers(query, limits, r)
  }

  lemma Within(query: Query, name: string, fallback: int, low: int, high: int, sentinel: ReportError,
               r: Result<int, ReportError>)
    requires Resolves(query, name, fallback, low, high, sentinel, r) && low <= fallback <= high
    ensures r.Ok? ==> low <= r.value <= high
  {
  }

  /**
   The parameter is absent and the value is the fallback, or it is there once, as the value's plain decimal in
   range.
   */
  ghost predicate Says(query: Query, name: string, fallback: int, high: int, v: int) {
    if name !in query || query[name] == [] then v == fallback else 1 <= v <= high && query[name] == [Decimal(v)]
  }

  lemma DecimalNotEmpty(v: nat)
    ensures Decimal(v) != ""
  {
  }

  lemma ResolvesSays(query: Query, name: string, fallback: int, high: int, sentinel: ReportError,
                     r: Result<int, ReportError>, v: int)
    requires Resolves(query, name, fallback, 1, high, sentinel, r) && 1 <= fallback <= high
    ensures r == Ok(v) <==> Says(query, name, fallback, high, v)
    ensures r.Err? ==> r.error in {Repeated, Empty, sentinel}
  {
    hide Decimal;
    if r.Ok? && name in query && query[name] != [] {
      if Says(query, name, fallback, high, v) {
        NumberOfDecimal(v);
        NumberOfDecimal(r.value);
      }
    }
    if Says(query, name, fallback, high, v) && name in query && query[name] != [] {
      assert Spells(query[name][0], 1, high);
      DecimalNotEmpty(v);
    }
  }

  lemma CursorParams(query: Query)
    ensures MentionsCursor(query) <==> "limit" in query || "after" in query || "before" in query
  {
    assert CURSOR_PARAMS[0] == "limit" && CURSOR_PARAMS[1] == "after" && CURSOR_PARAMS[2] == "before";
  }

  /**
   A report is accepted exactly when the query names no cursor parameter, its page, from 1 to 100000, and its size, up
   to the limit, are plain decimals or absent, and no more rows are skipped than allowed; a page too deep is told apart
   from everything else.
   */
  lemma ReportAcceptedIff(query: Query, limits: ReportLimits, r: Result<Report, ReportError>, page: int, size: int)
    requires ValidLimits(limits) && ParsesTo(query, limits, r)
    ensures var mixed := "limit" in query || "after" in query || "before" in query;
            var said := Says(query, "page", 1, 100000, page)
              && Says(query, "size", limits.defaultSize, limits.maxSize, size);
            && (r == Ok(Report(page, size)) <==> !mixed && said && (page - 1) * size <= limits.maxOffset)
            && (!mixed && said && (page - 1) * size > limits.maxOffset ==> r == Err(TooDeep))
            && (mixed <==> r == Err(Mixed))
  {
    hide Resolves, Says, Decimal;
    CursorParams(query);
    if !MentionsCursor(query) {
      var number :| Resolves(query, "page", 1, 1, MAX_REPORT_PAGE, InvalidPage, number)
        && if number.Err? then r == Err(number.error) else ParsesSize(query, limits, number.value, r);
      ResolvesSays(query, "page", 1, MAX_REPORT_PAGE, InvalidPage, number, page);
      if number.Ok? {
        var read :| Resolves(query, "size", limits.defaultSize, 1, limits.maxSize, InvalidSize, read)
          && r == if read.Err? then Err(read.error)
                  else if (number.value - 1) * read.value > limits.maxOffset then Err(TooDeep)
                  else Ok(Report(number.value, read.value));
        ResolvesSays(query, "size", limits.defaultSize, limits.maxSize, InvalidSize, read, size);
      }
    }
  }

  method ParseReport(query: Query, limits: ReportLimits) returns (r: Result<Report, ReportError>)
    requires limits == ReportLimits(0, 0, 0) || ValidLimits(limits)
    ensures ParsesTo(query, limits, r)
    ensures r.Ok? ==> Bounded(r.value) && r.value.size <= limits.maxSize && 0 <= Offset(r.value) <= limits.maxOffset
  {
    hide Resolves, Offset;
    if limits.defaultSize == 0 {
      return Err(BadLimits);
    }
    for i := 0 to |CURSOR_PARAMS|
      invariant forall name :: name in CURSOR_PARAMS[..i] ==> name !in query
    {
      if CURSOR_PARAMS[i] in query {
        return Err(Mixed);
      }
    }
    assert CURSOR_PARAMS[..|CURSOR_PARAMS|] == CURSOR_PARAMS;
    var number := ParseBoundedParameter(query, "page", 1, 1, MAX_REPORT_PAGE, InvalidPage);
    Within(query, "page", 1, 1, MAX_REPORT_PAGE, InvalidPage, number);
    if number.Err? {
      return Err(number.error);
    }
    var size := ParseBoundedParameter(query, "size", limits.defaultSize, 1, limits.maxSize, InvalidSize);
    Within(query, "size", limits.defaultSize, 1, limits.maxSize, InvalidSize, size);
    if size.Err? {
      assert ParsesSize(query, limits, number.value, Err(size.error));
      return Err(size.error);
    }
    var report := Report(number.value, size.value);
    OffsetBounded(report);
    r := if Offset(report) > limits.maxOffset then Err(TooDeep) else Ok(report);
    assert ParsesSize(query, limits, number.value, r);
  }
}
