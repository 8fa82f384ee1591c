/**
 * The per-facility loop of `crawl_for_addresses` (PlasmaSites.py:103-139): for every
 * FEI number of the listing, open that facility's detail page and pick six fields out
 * of its information table with the fallback search anchored at row 11, then attach the
 * six lists to the listing frame as new columns.
 */
module DetailScraper {
  import opened Wrappers
  import opened FallbackSearch
  import ListingScraper

  /** The row of the information table where every field is first looked for. */
  const Anchor: nat := 11

  /** The patterns of PlasmaSites.py:119-124; the legal name reuses the applicant-name pattern. */
  const ApplicantNamePattern: string := "\n?Applicant Name:\n?(.*)\n?"
  const AddressPattern: string := "\n?Address:\n(.*)\\s\n"
  const CityPattern: string := "\nCity:\n?(.*)\n?"
  const ZipPattern: string := "\n?Zip:\n?(.*)\n"
  const CenterTypePattern: string := "(PLASMAPHERESIS)"

  /** The six fields read from one detail page; a field the search did not find is None. */
  datatype Detail = Detail(
    applicantName: Option<string>,
    legalName: Option<string>,
    address1: Option<string>,
    city: Option<string>,
    zip: Option<string>,
    centerType: Option<string>)

  /**
   * The fields one detail page yields, its information table given as the texts of its
   * rows. Every search starts at the anchor row, so a table too short to have that row
   * raises the IndexError of the first search; otherwise each field is what the fallback
   * search finds for its pattern.
   */
  function DetailOf(find: Matcher, info: seq<string>): (r: Result<Detail, SearchError>)
    ensures r.Success? ==> r.value.legalName == r.value.applicantName
  {
    if |info| <= Anchor then Failure(IndexError(Anchor))
    else Success(Detail(
      Search(find, ApplicantNamePattern, info, Anchor).value,
      Search(find, ApplicantNamePattern, info, Anchor).value,
      Search(find, AddressPattern, info, Anchor).value,
      Search(find, CityPattern, info, Anchor).value,
      Search(find, ZipPattern, info, Anchor).value,
      Search(find, CenterTypePattern, info, Anchor).value))
  }

  /** A detail page raises exactly when its table has no anchor row, with the IndexError of that row. */
  lemma DetailFailsOnlyWithoutAnchor(find: Matcher, info: seq<string>)
    ensures DetailOf(find, info).Failure? <==> |info| <= Anchor
    ensures DetailOf(find, info).Failure? ==> DetailOf(find, info).error == IndexError(Anchor)
  {
  }

  /**
   * On a page with an anchor row, each field is a value captured from the nearest matching
   * row at most MaxTick rows past the anchor, or None when no row of that window matches
   * its pattern.
   */
  lemma DetailMeaning(find: Matcher, info: seq<string>)
    ensures DetailOf(find, info).Success? ==>
      var d := DetailOf(find, info).value;
      && FoundNearest(find, ApplicantNamePattern, info, Anchor, d.applicantName)
      && FoundNearest(find, AddressPattern, info, Anchor, d.address1)
      && FoundNearest(find, CityPattern, info, Anchor, d.city)
      && FoundNearest(find, ZipPattern, info, Anchor, d.zip)
      && FoundNearest(find, CenterTypePattern, info, Anchor, d.centerType)
  {
    if Anchor < |info| {
      FieldIsNearest(find, ApplicantNamePattern, info);
      FieldIsNearest(find, AddressPattern, info);
      FieldIsNearest(find, CityPattern, info);
      FieldIsNearest(find, ZipPattern, info);
      FieldIsNearest(find, CenterTypePattern, info);
    }
  }

  /** Each anchored search reports the nearest match in its window, or None. */
  lemma FieldIsNearest(find: Matcher, pattern: string, info: seq<string>)
    requires Anchor < |info|
    ensures FoundNearest(find, pattern, info, Anchor, Search(find, pattern, info, Anchor).value)
  {
    match Search(find, pattern, info, Anchor).value
    case Some(v) => SearchFindsLowestOffset(find, pattern, info, Anchor, v);
    case None => SearchMissesOnlyEmptyWindow(find, pattern, info, Anchor);
  }

  /**
   * The six `loop_and_search` calls for one facility (PlasmaSites.py:119-124), in the
   * source's order; the first raises when the table has no anchor row.
   */
  method ScrapeDetail(find: Matcher, info: seq<string>) returns (r: Result<Detail, SearchError>)
    ensures r == DetailOf(find, info)
  {
    var applicantName, _ := LoopAndSearch(find, ApplicantNamePattern, info, Anchor);
    if applicantName.Failure? {
      return Failure(applicantName.error);
    }
    var legalName, _ := LoopAndSearch(find, ApplicantNamePattern, info, Anchor);
    var address1, _ := LoopAndSearch(find, AddressPattern, info, Anchor);
    var city, _ := LoopAndSearch(find, CityPattern, info, Anchor);
    var zip, _ := LoopAndSearch(find, ZipPattern, info, Anchor);
    var centerType, _ := LoopAndSearch(find, CenterTypePattern, info, Anchor);
    return Success(Detail(applicantName.value, legalName.value, address1.value, city.value, zip.value, centerType.value));
  }

  /** Visiting a facility: open the detail page of its FEI number and read its fields. */
  type Visit = string -> Result<Detail, SearchError>

  /** The visit that `lookup` (the information table the site serves for an FEI number) and `find` give. */
  function VisitWith(find: Matcher, lookup: string -> seq<string>): Visit
  {
    fei => DetailOf(find, lookup(fei))
  }

  /**
   * The facilities of the FEI numbers `feis`, visited in order: one Detail per number,
   * or the exception of the first visit that raises.
   */
  function Details(visit: Visit, feis: seq<string>): Result<seq<Detail>, SearchError>
  {
    if feis == [] then Success([])
    else
      match Details(visit, feis[..|feis| - 1])
      case Failure(e) => Failure(e)
      case Success(ds) =>
        match visit(feis[|feis| - 1])
        case Failure(e) => Failure(e)
        case Success(d) => Success(ds + [d])
  }

  /** A successful visit of all numbers yields one detail per number. */
  lemma {:induction false} DetailsLength(visit: Visit, feis: seq<string>)
    ensures Details(visit, feis).Success? ==> |Details(visit, feis).value| == |feis|
  {
    if feis != [] {
      DetailsLength(visit, feis[..|feis| - 1]);
    }
  }

  /**
   * Visiting succeeds exactly when every visit does, and then yields the detail of each
   * number at its own position; a failure is that of the first visit that raises.
   */
  lemma {:induction false} DetailsMeaning(visit: Visit, feis: seq<string>)
    ensures Details(visit, feis).Success? <==> forall i :: 0 <= i < |feis| ==> visit(feis[i]).Success?
    ensures Details(visit, feis).Success? ==>
      && |Details(visit, feis).value| == |feis|
      && forall i :: 0 <= i < |feis| ==> Success(Details(visit, feis).value[i]) == visit(feis[i])
    ensures Details(visit, feis).Failure? ==>
      exists i :: && 0 <= i < |feis|
                  && visit(feis[i]) == Failure(Details(visit, feis).error)
                  && forall j :: 0 <= j < i ==> visit(feis[j]).Success?
  {
    if feis != [] {
      var front := feis[..|feis| - 1];
      DetailsMeaning(visit, front);
      assert forall i :: 0 <= i < |front| ==> front[i] == feis[i];
    }
  }

  /** One listing row with the six detail columns added to it. */
  datatype EnrichedRow = EnrichedRow(site: ListingScraper.ListingRow, detail: Detail)

  /** The FEI column of the listing frame. */
  function Feis(sites: seq<ListingScraper.ListingRow>): seq<string>
  {
    seq(|sites|, i requires 0 <= i < |sites| => sites[i].fei)
  }

  /** What `crawl_for_addresses` returns for the listing frame `sites`, or the exception it raises. */
  function Enrich(visit: Visit, sites: seq<ListingScraper.ListingRow>): Result<seq<EnrichedRow>, SearchError>
  {
    match Details(visit, Feis(sites))
    case Failure(e) => Failure(e)
    case Success(ds) =>
      DetailsLength(visit, Feis(sites));
      Success(Pair(sites, ds))
  }

  /** Each listing row next to the detail at the same position. */
  function Pair(sites: seq<ListingScraper.ListingRow>, ds: seq<Detail>): seq<EnrichedRow>
    requires |ds| == |sites|
  {
    seq(|sites|, i requires 0 <= i < |sites| => EnrichedRow(sites[i], ds[i]))
  }

  /**
   * The enriched frame keeps every listing row, in place, and adds to each the detail of
   * its own FEI number; the crawl raises exactly when some facility's table lacks the
   * anchor row, with the IndexError of that row.
   */
  lemma EnrichMeaning(find: Matcher, lookup: string -> seq<string>, sites: seq<ListingScraper.ListingRow>)
    ensures var r := Enrich(VisitWith(find, lookup), sites);
      && (r.Success? <==> forall i :: 0 <= i < |sites| ==> Anchor < |lookup(sites[i].fei)|)
      && (r.Failure? ==> r.error == IndexError(Anchor))
      && (r.Success? ==>
        && |r.value| == |sites|
        && forall i :: 0 <= i < |sites| ==>
          && r.value[i].site == sites[i]
          && Success(r.value[i].detail) == DetailOf(find, lookup(sites[i].fei)))
  {
    var visit := VisitWith(find, lookup);
    var feis := Feis(sites);
    DetailsMeaning(visit, feis);
    forall i | 0 <= i < |sites|
      ensures visit(feis[i]).Success? <==> Anchor < |lookup(sites[i].fei)|
      ensures visit(feis[i]).Failure? ==> visit(feis[i]).error == IndexError(Anchor)
    {
      DetailFailsOnlyWithoutAnchor(find, lookup(sites[i].fei));
    }
  }

  /** The six lists `applicant_names, legal_names, address_1s, cities, zips, center_types`. */
  datatype DetailColumns = DetailColumns(
    applicantNames: seq<Option<string>>,
    legalNames: seq<Option<string>>,
    address1s: seq<Option<string>>,
    cities: seq<Option<string>>,
    zips: seq<Option<string>>,
    centerTypes: seq<Option<string>>)

  /** The six lists holding, position by position, the fields of the details `ds`. */
  function DetailColumnsOf(ds: seq<Detail>): (c: DetailColumns)
    ensures |c.applicantNames| == |c.legalNames| == |c.address1s| == |c.cities| == |c.zips| == |c.centerTypes| == |ds|
  {
    DetailColumns(
      seq(|ds|, i requires 0 <= i < |ds| => ds[i].applicantName),
      seq(|ds|, i requires 0 <= i < |ds| => ds[i].legalName),
      seq(|ds|, i requires 0 <= i < |ds| => ds[i].address1),
      seq(|ds|, i requires 0 <= i < |ds| => ds[i].city),
      seq(|ds|, i requires 0 <= i < |ds| => ds[i].zip),
      seq(|ds|, i requires 0 <= i < |ds| => ds[i].centerType))
  }

  /** Appending one detail's fields to the lists of `ds` gives the lists of `ds + [d]`. */
  lemma DetailColumnsOfAppend(ds: seq<Detail>, d: Detail)
    ensures var c := DetailColumnsOf(ds);
      DetailColumnsOf(ds + [d]) == DetailColumns(c.applicantNames + [d.applicantName], c.legalNames + [d.legalName],
        c.address1s + [d.address1], c.cities + [d.city], c.zips + [d.zip], c.centerTypes + [d.centerType])
  {
  }

  /**
   * Visiting one more facility: its detail is appended, or its exception is what visiting
   * the whole list raises.
   */
  lemma DetailsOneMore(visit: Visit, feis: seq<string>, k: nat, ds: seq<Detail>)
    requires k < |feis|
    requires Details(visit, feis[..k]) == Success(ds)
    ensures visit(feis[k]).Success? ==> Details(visit, feis[..k + 1]) == Success(ds + [visit(feis[k]).value])
    ensures visit(feis[k]).Failure? ==> Details(visit, feis) == Failure(visit(feis[k]).error)
  {
    assert feis[..k + 1][..k] == feis[..k];
    if visit(feis[k]).Failure? {
      DetailsFailureOfPrefixPersists(visit, feis, k + 1);
    }
  }

  /** Once a prefix of the visits raises, visiting all of them raises the same. */
  lemma {:induction false} DetailsFailureOfPrefixPersists(visit: Visit, feis: seq<string>, n: nat)
    requires n <= |feis|
    requires Details(visit, feis[..n]).Failure?
    ensures Details(visit, feis) == Details(visit, feis[..n])
    decreases |feis| - n
  {
    if n < |feis| {
      var longer := feis[..n + 1];
      assert longer[..n] == feis[..n];
      assert Details(visit, longer) == Details(visit, feis[..n]);
      DetailsFailureOfPrefixPersists(visit, feis, n + 1);
    } else {
      assert feis[..n] == feis;
    }
  }

  /**
   * The loop of PlasmaSites.py:107-132 over the FEI column: one detail page per number,
   * each field appended to its list. On success the six lists are exactly as long as the
   * column and hold, at each position, the fields of that number's page.
   */
  method ScrapeAllDetails(find: Matcher, lookup: string -> seq<string>, feis: seq<string>)
    returns (r: Result<DetailColumns, SearchError>)
    ensures var expected := Details(VisitWith(find, lookup), feis);
      && (r.Success? <==> expected.Success?)
      && (r.Failure? ==> r.error == expected.error)
      && (r.Success? ==> r.value == DetailColumnsOf(expected.value))
  {
    ghost var visit := VisitWith(find, lookup);
    var applicantNames, legalNames, address1s, cities, zips, centerTypes := [], [], [], [], [], [];
    ghost var ds: seq<Detail> := [];
    for k := 0 to |feis|
      invariant Details(visit, feis[..k]) == Success(ds)
      invariant DetailColumns(applicantNames, legalNames, address1s, cities, zips, centerTypes) == DetailColumnsOf(ds)
    {
      DetailsOneMore(visit, feis, k, ds);
      var info := lookup(feis[k]);
      var detail := ScrapeDetail(find, info);
      if detail.Failure? {
        return Failure(detail.error);
      }
      var d := detail.value;
      applicantNames, legalNames, address1s := applicantNames + [d.applicantName], legalNames + [d.legalName], address1s + [d.address1];
      cities, zips, centerTypes := cities + [d.city], zips + [d.zip], centerTypes + [d.centerType];
      DetailColumnsOfAppend(ds, d);
      ds := ds + [d];
    }
    assert feis[..|feis|] == feis;
    return Success(DetailColumns(applicantNames, legalNames, address1s, cities, zips, centerTypes));
  }

  /**
   * crawl_for_addresses: visit every facility of the listing frame and assign the six
   * lists to it as new columns (PlasmaSites.py:135-139). The frame that comes back has
   * the listing's rows in their order, each with its own facility's detail.
   */
  method CrawlForAddresses(find: Matcher, lookup: string -> seq<string>, sites: seq<ListingScraper.ListingRow>)
    returns (r: Result<seq<EnrichedRow>, SearchError>)
    ensures r == Enrich(VisitWith(find, lookup), sites)
  {
    var feis := Feis(sites);
    var scraped := ScrapeAllDetails(find, lookup, feis);
    if scraped.Failure? {
      return Failure(scraped.error);
    }
    var c := scraped.value;
    ghost var ds := Details(VisitWith(find, lookup), feis).value;
    DetailsLength(VisitWith(find, lookup), feis);
    var frame := seq(|sites|, i requires 0 <= i < |sites| =>
      EnrichedRow(sites[i], Detail(c.applicantNames[i], c.legalNames[i], c.address1s[i], c.cities[i], c.zips[i], c.centerTypes[i])));
    assert frame == Pair(sites, ds) by {
      forall i | 0 <= i < |sites| ensures frame[i] == Pair(sites, ds)[i] {
        assert ds[i] == Detail(c.applicantNames[i], c.legalNames[i], c.address1s[i], c.cities[i], c.zips[i], c.centerTypes[i]);
      }
    }
    return Success(frame);
  }
}
