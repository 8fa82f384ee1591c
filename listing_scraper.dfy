/**
 * The page loop of `crawl_for_sites` (PlasmaSites.py:53-82): read the results table of
 * each listing page, skip its header row, turn every other row into a facility summary,
 * and follow the "Display next" control until a page has none.
 */
module ListingScraper {
  import opened Wrappers

  /** One row of the results table: the texts of its cells, in order. */
  type Row = seq<string>

  /** A rendered listing page: the rows of its results table and whether it has a "Display next" control. */
  datatype Page = Page(rows: seq<Row>, hasNext: bool)

  /**
   * The remote listing as the browser session serves it: `site[i]` is the page shown after
   * i clicks on "next".
   */
  type Site = seq<Page>

  /** The three capture groups of the address-cell pattern: city, state and ZIP. */
  datatype Address = Address(city: string, state: string, zip: string)

  /**
   * The regular expressions of the row parser, left uninterpreted: `address` parses the
   * "city, state / zip" cell (None when the pattern does not match), `fei` is the first
   * group of the identifier pattern, which matches every text.
   */
  datatype Parsers = Parsers(address: string -> Option<Address>, fei: string -> string)

  /** A facility as the listing shows it. */
  datatype FacilitySummary = FacilitySummary(name: string, city: string, state: string, zip: string, fei: string)

  /** A row of the frame `crawl_for_sites` returns: columns company_name, city, state, fei (no ZIP). */
  datatype ListingRow = ListingRow(companyName: string, city: string, state: string, fei: string)

  /** The exceptions a malformed row raises: a missing cell (IndexError) or an address cell of the wrong shape. */
  datatype ScrapeError = MissingCell(row: Row) | AddressMismatch(cell: string)

  predicate IsTabOrNewline(c: char) { c == '\n' || c == '\t' }

  /** The name cleanup `re.sub("[\n\t]", "", text)` of PlasmaSites.py:63. */
  function CleanName(s: string): (r: string)
    ensures |r| <= |s|
  {
    if s == [] then []
    else (if IsTabOrNewline(s[0]) then [] else [s[0]]) + CleanName(s[1..])
  }

  /** The cleanup leaves no newline and no tab. */
  lemma {:induction false} CleanNameHasNoTabOrNewline(s: string)
    ensures forall i :: 0 <= i < |CleanName(s)| ==> !IsTabOrNewline(CleanName(s)[i])
  {
    if s != [] {
      CleanNameHasNoTabOrNewline(s[1..]);
    }
  }

  /** The cleanup keeps every other character as often as it occurs. */
  lemma {:induction false} CleanNameKeepsOtherCharacters(s: string)
    ensures forall c :: !IsTabOrNewline(c) ==> multiset(CleanName(s))[c] == multiset(s)[c]
  {
    if s != [] {
      CleanNameKeepsOtherCharacters(s[1..]);
      assert s == [s[0]] + s[1..];
    }
  }

  /** A name with neither newline nor tab is left unchanged. */
  lemma {:induction false} CleanNameFixesClean(s: string)
    requires forall i :: 0 <= i < |s| ==> !IsTabOrNewline(s[i])
    ensures CleanName(s) == s
  {
    if s != [] {
      CleanNameFixesClean(s[1..]);
    }
  }

  /** Cleaning twice is cleaning once. */
  lemma CleanNameIdempotent(s: string)
    ensures CleanName(CleanName(s)) == CleanName(s)
  {
    CleanNameHasNoTabOrNewline(s);
    CleanNameFixesClean(CleanName(s));
  }

  /**
   * The cleanup works character by character and keeps the rest in place: cleaning a
   * concatenation is concatenating the cleaned parts.
   */
  lemma {:induction false} CleanNameAppend(a: string, b: string)
    ensures CleanName(a + b) == CleanName(a) + CleanName(b)
  {
    if a != [] {
      CleanNameAppend(a[1..], b);
      assert (a + b)[1..] == a[1..] + b;
    } else {
      assert a + b == b;
    }
  }

  /** The header row is skipped: `table_contents[1:]`, which is empty for an empty table. */
  function Body(p: Page): (b: seq<Row>)
    ensures |b| == if |p.rows| == 0 then 0 else |p.rows| - 1
    ensures forall i :: 0 <= i < |b| ==> b[i] == p.rows[i + 1]
  {
    if |p.rows| == 0 then [] else p.rows[1..]
  }

  /**
   * One table row to a summary (PlasmaSites.py:62-68), failing where the source raises:
   * a missing name or address cell, an address cell the pattern does not match, then a
   * missing identifier cell.
   */
  function ParseRow(parsers: Parsers, row: Row): (r: Result<FacilitySummary, ScrapeError>)
    ensures |row| < 2 ==> r == Failure(MissingCell(row))
    ensures 2 <= |row| && parsers.address(row[1]).None? ==> r == Failure(AddressMismatch(row[1]))
    ensures |row| == 2 && parsers.address(row[1]).Some? ==> r == Failure(MissingCell(row))
    ensures r.Success? <==> 3 <= |row| && parsers.address(row[1]).Some?
    ensures r.Success? ==>
      && r.value.name == CleanName(row[0])
      && Address(r.value.city, r.value.state, r.value.zip) == parsers.address(row[1]).value
      && r.value.fei == parsers.fei(row[2])
  {
    if |row| < 2 then Failure(MissingCell(row))
    else match parsers.address(row[1])
      case None => Failure(AddressMismatch(row[1]))
      case Some(a) =>
        if |row| < 3 then Failure(MissingCell(row))
        else Success(FacilitySummary(CleanName(row[0]), a.city, a.state, a.zip, parsers.fei(row[2])))
  }

  /**
   * All rows parsed in order, stopping at the first malformed one: one summary per row
   * when every row parses.
   */
  function ParseRows(parsers: Parsers, rows: seq<Row>): Result<seq<FacilitySummary>, ScrapeError>
  {
    if rows == [] then Success([])
    else
      match ParseRows(parsers, rows[..|rows| - 1])
      case Failure(e) => Failure(e)
      case Success(acc) =>
        match ParseRow(parsers, rows[|rows| - 1])
        case Failure(e) => Failure(e)
        case Success(s) => Success(acc + [s])
  }

  /**
   * Parsing succeeds exactly when every row parses, and then gives one summary per row in
   * row order; a failure is the exception of the first row that does not parse.
   */
  lemma {:induction false} ParseRowsMeaning(parsers: Parsers, rows: seq<Row>)
    ensures ParseRows(parsers, rows).Success? <==> forall i :: 0 <= i < |rows| ==> ParseRow(parsers, rows[i]).Success?
    ensures ParseRows(parsers, rows).Success? ==>
      && |ParseRows(parsers, rows).value| == |rows|
      && forall i :: 0 <= i < |rows| ==> Success(ParseRows(parsers, rows).value[i]) == ParseRow(parsers, rows[i])
    ensures ParseRows(parsers, rows).Failure? ==>
      exists i :: && 0 <= i < |rows|
                  && ParseRow(parsers, rows[i]) == Failure(ParseRows(parsers, rows).error)
                  && forall j :: 0 <= j < i ==> ParseRow(parsers, rows[j]).Success?
  {
    if rows != [] {
      var front := rows[..|rows| - 1];
      ParseRowsMeaning(parsers, front);
      assert forall i :: 0 <= i < |front| ==> front[i] == rows[i];
    }
  }

  /** Once a prefix of the rows fails to parse, the whole sequence fails with the same error. */
  lemma {:induction false} FailureOfPrefixPersists(parsers: Parsers, rows: seq<Row>, n: nat)
    requires n <= |rows|
    requires ParseRows(parsers, rows[..n]).Failure?
    ensures ParseRows(parsers, rows) == ParseRows(parsers, rows[..n])
    decreases |rows| - n
  {
    if n < |rows| {
      var longer := rows[..n + 1];
      assert longer[..n] == rows[..n];
      assert ParseRows(parsers, longer) == ParseRows(parsers, rows[..n]);
      FailureOfPrefixPersists(parsers, rows, n + 1);
    } else {
      assert rows[..n] == rows;
    }
  }

  /**
   * The summaries of the first n pages, page after page, or the exception of the first
   * malformed row among them.
   */
  function Listed(parsers: Parsers, site: Site, n: nat): Result<seq<FacilitySummary>, ScrapeError>
    requires n <= |site|
  {
    if n == 0 then Success([])
    else match Listed(parsers, site, n - 1)
      case Failure(e) => Failure(e)
      case Success(acc) =>
        match ParseRows(parsers, Body(site[n - 1]))
        case Failure(e) => Failure(e)
        case Success(more) => Success(acc + more)
  }

  /** How many non-header rows the first n pages hold: each page but an empty one loses its header. */
  function NonHeaderRows(site: Site, n: nat): nat
    requires n <= |site|
  {
    if n == 0 then 0
    else NonHeaderRows(site, n - 1) + (if |site[n - 1].rows| == 0 then 0 else |site[n - 1].rows| - 1)
  }

  /** The frame built from the summaries: the ZIP column is dropped. */
  function DropZip(acc: seq<FacilitySummary>): seq<ListingRow>
  {
    seq(|acc|, i requires 0 <= i < |acc| => ListingRow(acc[i].name, acc[i].city, acc[i].state, acc[i].fei))
  }

  /** What `crawl_for_sites` returns after reading the first n pages, or the exception it raises. */
  function ListingFrame(parsers: Parsers, site: Site, n: nat): Result<seq<ListingRow>, ScrapeError>
    requires n <= |site|
  {
    match Listed(parsers, site, n)
    case Failure(e) => Failure(e)
    case Success(acc) => Success(DropZip(acc))
  }

  /**
   * The frame has exactly one row per non-header row of the pages read: the sum over the
   * pages of each page's row count less its header.
   */
  lemma {:induction false} FrameHasOneRowPerEntry(parsers: Parsers, site: Site, n: nat)
    requires n <= |site|
    requires ListingFrame(parsers, site, n).Success?
    ensures |ListingFrame(parsers, site, n).value| == NonHeaderRows(site, n)
  {
    if n > 0 {
      FrameHasOneRowPerEntry(parsers, site, n - 1);
      ParseRowsMeaning(parsers, Body(site[n - 1]));
    }
  }

  /** Python's `zip` over four columns: as long as the shortest, pairing entries by position. */
  function Zip4(a: seq<string>, b: seq<string>, c: seq<string>, d: seq<string>): (rows: seq<ListingRow>)
    ensures |rows| <= |a| && |rows| <= |b| && |rows| <= |c| && |rows| <= |d|
    ensures |rows| == |a| || |rows| == |b| || |rows| == |c| || |rows| == |d|
    ensures forall i :: 0 <= i < |rows| ==> rows[i] == ListingRow(a[i], b[i], c[i], d[i])
  {
    var n := if |a| <= |b| && |a| <= |c| && |a| <= |d| then |a|
             else if |b| <= |c| && |b| <= |d| then |b|
             else if |c| <= |d| then |c|
             else |d|;
    seq(n, i requires 0 <= i < n => ListingRow(a[i], b[i], c[i], d[i]))
  }

  /** The five parallel lists `names, cities, states, zips, feis` the page loop appends to. */
  datatype Columns = Columns(names: seq<string>, cities: seq<string>, states: seq<string>, zips: seq<string>, feis: seq<string>)

  /**
   * The five lists holding, position by position, the fields of the summaries `acc`: what
   * appending each summary's fields in turn to empty lists leaves, so they are equally long.
   */
  function ColumnsOf(acc: seq<FacilitySummary>): (c: Columns)
    ensures |c.names| == |c.cities| == |c.states| == |c.zips| == |c.feis| == |acc|
  {
    Columns(seq(|acc|, i requires 0 <= i < |acc| => acc[i].name),
            seq(|acc|, i requires 0 <= i < |acc| => acc[i].city),
            seq(|acc|, i requires 0 <= i < |acc| => acc[i].state),
            seq(|acc|, i requires 0 <= i < |acc| => acc[i].zip),
            seq(|acc|, i requires 0 <= i < |acc| => acc[i].fei))
  }

  /** Appending one summary's fields to the lists of `acc` gives the lists of `acc + [s]`. */
  lemma ColumnsOfAppend(acc: seq<FacilitySummary>, s: FacilitySummary)
    ensures var c := ColumnsOf(acc);
      ColumnsOf(acc + [s]) == Columns(c.names + [s.name], c.cities + [s.city], c.states + [s.state], c.zips + [s.zip], c.feis + [s.fei])
  {
  }

  /** The frame `zip(names, cities, states, feis)` of the lists is the summaries without their ZIPs. */
  lemma FrameOfColumns(acc: seq<FacilitySummary>)
    ensures var c := ColumnsOf(acc); Zip4(c.names, c.cities, c.states, c.feis) == DropZip(acc)
  {
  }

  /** Every one of the first n pages has a "next" control. */
  ghost predicate NextOnFirst(site: Site, n: nat)
    requires n <= |site|
  {
    forall i :: 0 <= i < n ==> site[i].hasNext
  }

  /**
   * Clicking "next" on page n, when every earlier page had it too, stays short of a page
   * without one.
   */
  lemma NextPageStep(site: Site, n: nat, last: nat)
    requires n <= last < |site| && !site[last].hasNext
    requires NextOnFirst(site, n) && site[n].hasNext
    ensures n + 1 <= last && NextOnFirst(site, n + 1)
  {
  }

  /**
   * Parsing one more row: its summary is appended, or its exception is what parsing the
   * whole table raises.
   */
  lemma ParseOneMore(parsers: Parsers, table: seq<Row>, k: nat, acc: seq<FacilitySummary>)
    requires k < |table|
    requires ParseRows(parsers, table[..k]) == Success(acc)
    ensures ParseRow(parsers, table[k]).Success? ==>
      ParseRows(parsers, table[..k + 1]) == Success(acc + [ParseRow(parsers, table[k]).value])
    ensures ParseRow(parsers, table[k]).Failure? ==>
      ParseRows(parsers, table) == Failure(ParseRow(parsers, table[k]).error)
  {
    assert table[..k + 1][..k] == table[..k];
    if ParseRow(parsers, table[k]).Failure? {
      FailureOfPrefixPersists(parsers, table, k + 1);
    }
  }

  /**
   * The inner loop of PlasmaSites.py:61-68 over the non-header rows of one page: append
   * each row's fields to the five lists, or raise on the first malformed row. On success
   * every list has grown by one entry per row, so the lists stay equally long.
   */
  method ScrapeTable(parsers: Parsers, table: seq<Row>, cols: Columns, ghost acc: seq<FacilitySummary>)
    returns (r: Result<Columns, ScrapeError>)
    requires cols == ColumnsOf(acc)
    ensures r.Success? <==> ParseRows(parsers, table).Success?
    ensures r.Failure? ==> r.error == ParseRows(parsers, table).error
    ensures r.Success? ==> r.value == ColumnsOf(acc + ParseRows(parsers, table).value)
  {
    var names, cities, states, zips, feis := cols.names, cols.cities, cols.states, cols.zips, cols.feis;
    ghost var pageAcc: seq<FacilitySummary> := [];
    assert acc + pageAcc == acc;
    for k := 0 to |table|
      invariant ParseRows(parsers, table[..k]) == Success(pageAcc)
      invariant Columns(names, cities, states, zips, feis) == ColumnsOf(acc + pageAcc)
    {
      ParseOneMore(parsers, table, k, pageAcc);
      var parsed := ParseRow(parsers, table[k]);
      if parsed.Failure? {
        return Failure(parsed.error);
      }
      var s := parsed.value;
      names, cities, states, zips, feis := names + [s.name], cities + [s.city], states + [s.state], zips + [s.zip], feis + [s.fei];
      ColumnsOfAppend(acc + pageAcc, s);
      assert acc + (pageAcc + [s]) == acc + pageAcc + [s];
      pageAcc := pageAcc + [s];
    }
    assert table[..|table|] == table;
    return Success(Columns(names, cities, states, zips, feis));
  }

  /**
   * One pass of the page loop (PlasmaSites.py:54-68) on page n: scrape its table into the
   * lists. Afterwards the lists hold the summaries of the first n + 1 pages, or the page
   * raised what the listing as a whole raises.
   */
  method ScrapePage(parsers: Parsers, page: Page, cols: Columns, ghost site: Site, ghost n: nat, ghost acc: seq<FacilitySummary>)
    returns (r: Result<Columns, ScrapeError>, ghost acc': seq<FacilitySummary>)
    requires n < |site| && page == site[n]
    requires Listed(parsers, site, n) == Success(acc)
    requires cols == ColumnsOf(acc)
    ensures r.Failure? ==> Listed(parsers, site, n + 1) == Failure(r.error)
    ensures r.Success? ==> Listed(parsers, site, n + 1) == Success(acc') && r.value == ColumnsOf(acc')
  {
    r := ScrapeTable(parsers, Body(page), cols, acc);
    acc' := if r.Success? then acc + ParseRows(parsers, Body(page)).value else acc;
  }

  /**
   * The index of the first page without a "next" control: the last page crawl_for_sites
   * reads when no row raises.
   */
  ghost function LastPage(site: Site): (p: nat)
    requires exists last :: 0 <= last < |site| && !site[last].hasNext
    ensures p < |site| && !site[p].hasNext
    ensures forall i :: 0 <= i < p ==> site[i].hasNext
  {
    var last :| 0 <= last < |site| && !site[last].hasNext;
    if !site[0].hasNext then 0
    else
      assert site[1..][last - 1] == site[last];
      1 + LastPage(site[1..])
  }

  /** Once a page raises, reading further pages cannot change the outcome. */
  lemma {:induction false} ListedFailurePersists(parsers: Parsers, site: Site, n: nat, m: nat)
    requires n <= m <= |site|
    requires Listed(parsers, site, n).Failure?
    ensures Listed(parsers, site, m) == Listed(parsers, site, n)
  {
    if n < m {
      ListedFailurePersists(parsers, site, n, m - 1);
    }
  }

  /**
   * What crawl_for_sites returns: the frame of the pages up to the first one without a
   * "next" control, or the exception of the first malformed row among them.
   */
  ghost function Crawl(parsers: Parsers, site: Site): Result<seq<ListingRow>, ScrapeError>
    requires exists last :: 0 <= last < |site| && !site[last].hasNext
  {
    ListingFrame(parsers, site, LastPage(site) + 1)
  }

  /** A crawl that clicked "next" on every page before page n stops at page n when it has no "next" control. */
  lemma StopsAtLastPage(parsers: Parsers, site: Site, n: nat)
    requires n < |site| && NextOnFirst(site, n) && !site[n].hasNext
    ensures Crawl(parsers, site) == ListingFrame(parsers, site, n + 1)
  {
    assert LastPage(site) == n;
  }

  /**
   * A crawl that clicked "next" on every page before page n, and whose first n + 1 pages
   * raise, raises the same when the whole crawl is considered.
   */
  lemma RaisesBeforeLastPage(parsers: Parsers, site: Site, n: nat, last: nat)
    requires last < |site| && !site[last].hasNext
    requires n <= last && NextOnFirst(site, n)
    requires Listed(parsers, site, n + 1).Failure?
    ensures Crawl(parsers, site) == Failure(Listed(parsers, site, n + 1).error)
  {
    var p := LastPage(site);
    if p < n {  // page p would need a "next" control, which it lacks
      assert false;
    }
    ListedFailurePersists(parsers, site, n + 1, p + 1);
    assert Listed(parsers, site, p + 1) == Listed(parsers, site, n + 1);
  }

  /**
   * crawl_for_sites from the submitted search on: it reads pages in order, clicking "next"
   * on each, up to the first page without a "next" control. The result is the frame of all
   * summaries of those pages, or the exception of the first malformed row among them. The
   * source loops for ever when every page has a "next" control; the model requires some
   * page without one.
   */
  method CrawlForSites(parsers: Parsers, site: Site) returns (r: Result<seq<ListingRow>, ScrapeError>)
    requires exists last :: 0 <= last < |site| && !site[last].hasNext
    ensures r == Crawl(parsers, site)
  {
    ghost var last :| 0 <= last < |site| && !site[last].hasNext;
    var cols := ColumnsOf([]);
    ghost var acc: seq<FacilitySummary> := [];
    ghost var read := 0;
    var done := false;
    var current := 0;
    while !done
      invariant current <= last
      invariant NextOnFirst(site, current)
      invariant done ==> !site[current].hasNext && read == current + 1
      invariant !done ==> read == current
      invariant Listed(parsers, site, read) == Success(acc)
      invariant cols == ColumnsOf(acc)
      decreases last - current, if done then 0 else 1
    {
      var page := site[current];
      var scraped;
      scraped, acc := ScrapePage(parsers, page, cols, site, current, acc);
      if scraped.Failure? {
        RaisesBeforeLastPage(parsers, site, current, last);
        return Failure(scraped.error);
      }
      cols := scraped.value;
      read := current + 1;
      if page.hasNext {
        NextPageStep(site, current, last);
        current := current + 1;
      } else {
        done := true;
      }
    }
    var frame := Zip4(cols.names, cols.cities, cols.states, cols.feis);
    FrameOfColumns(acc);
    StopsAtLastPage(parsers, site, current);
    return Success(frame);
  }
}
