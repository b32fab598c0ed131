/** Pagination of the listing: reading the highest page number off the
    listing root's anchors (`get_total_pages`, scrape.py:35-50) and
    generating the URL of every listing page (`generate_page_urls`,
    scrape.py:52-57). */
module Pagination {
  import opened Wrappers
  import opened Text

  /** The path of the listing root. */
  const ListingPath := "presidential-actions/"

  /** An anchor counts as a pagination link only if its href contains this. */
  const PaginationMarker := "presidential-actions/page/"

  /** The href is split on this and its last piece holds the page number. */
  const PageSegment := "page/"

  predicate IsSlash(c: char) { c == '/' }

  /** The page number named by one href: `None` when the href is not a
      pagination link or when `int()` would reject the text after the last
      `page/` once its trailing slashes are gone. */
  function PageNumberOf(href: string): Option<nat> {
    if Contains(href, PaginationMarker)
    then ParseDecimal(RStrip(LastPiece(href, PageSegment), IsSlash))
    else None
  }

  /** The `page_numbers` list of `get_total_pages`: one entry per href that
      yields a page number, in href order. */
  function PageNumbers(hrefs: seq<string>): seq<nat>
    decreases |hrefs|
  {
    if hrefs == [] then []
    else
      var last := hrefs[|hrefs| - 1];
      PageNumbers(hrefs[..|hrefs| - 1])
      + (match PageNumberOf(last) case Some(n) => [n] case None => [])
  }

  /** One more href extends `page_numbers` by the number it names, if any. */
  lemma PageNumbersPrefix(hrefs: seq<string>, i: nat)
    requires i < |hrefs|
    ensures PageNumbers(hrefs[..i + 1])
            == PageNumbers(hrefs[..i]) + match PageNumberOf(hrefs[i]) case Some(n) => [n] case None => []
  {
    assert hrefs[..i + 1][..i] == hrefs[..i];
  }

  /** Python's `max` of a non-empty list. */
  function Max(xs: seq<nat>): (m: nat)
    requires xs != []
    decreases |xs|
    ensures m in xs
    ensures forall x :: x in xs ==> x <= m
  {
    if |xs| == 1 then xs[0]
    else
      var m := Max(xs[1..]);
      assert forall x :: x in xs ==> x == xs[0] || x in xs[1..];
      if xs[0] >= m then xs[0] else m
  }

  /** The value `get_total_pages` returns for the anchors of the listing root. */
  function TotalPages(hrefs: seq<string>): nat {
    var numbers := PageNumbers(hrefs);
    if numbers == [] then 1 else Max(numbers)
  }

  /** A number is in `page_numbers` exactly when some href names it. */
  lemma {:induction false} PageNumbersExactly(hrefs: seq<string>)
    ensures forall n :: n in PageNumbers(hrefs) <==> exists h :: h in hrefs && PageNumberOf(h) == Some(n)
    decreases |hrefs|
  {
    if hrefs != [] {
      var init := hrefs[..|hrefs| - 1];
      PageNumbersExactly(init);
      assert forall h :: h in hrefs <==> h in init || h == hrefs[|hrefs| - 1];
    }
  }

  /** `get_total_pages` returns the largest page number any href names, and
      1 when no href names one. */
  lemma TotalPagesIsMax(hrefs: seq<string>)
    ensures forall h :: h in hrefs && PageNumberOf(h).Some? ==> PageNumberOf(h).value <= TotalPages(hrefs)
    ensures (exists h :: h in hrefs && PageNumberOf(h) == Some(TotalPages(hrefs)))
            || (TotalPages(hrefs) == 1 && forall h :: h in hrefs ==> PageNumberOf(h).None?)
  {
    PageNumbersExactly(hrefs);
    var numbers := PageNumbers(hrefs);
    forall h | h in hrefs && PageNumberOf(h).Some?
      ensures PageNumberOf(h).value in numbers
    {
    }
    if numbers != [] {
      assert Max(numbers) in numbers;
    }
  }

  /** Every page up to the page count prints within the digit limit, so
      `str(page)` in `generate_page_urls` never meets the `ValueError` that
      `int()` raised for the hrefs skipped. */
  lemma PagesWithinDigitLimit(hrefs: seq<string>, page: nat)
    requires 1 <= page <= TotalPages(hrefs)
    ensures |ToDecimal(page)| <= MaxStrDigits
  {
    TotalPagesIsMax(hrefs);
    var total := TotalPages(hrefs);
    ToDecimalMonotone(page, total);
    if h :| h in hrefs && PageNumberOf(h) == Some(total) {
      ParsedPrintsShort(RStrip(LastPiece(h, PageSegment), IsSlash), total);
    } else {
      assert ToDecimal(total) == ToDecimal(1);
    }
  }

  /** The URL of listing page `page`: the base URL itself for page 1, and
      `<base>page/<page>/` after it. */
  function PageUrl(base: string, page: int): string {
    if page > 1 then base + PageSegment + ToDecimal(page) + "/" else base
  }

  /** `generate_page_urls`: the URLs of pages 1 to `totalPages`, in order;
      none when `totalPages` is below 1. */
  function PageUrls(base: string, totalPages: int): seq<string> {
    seq(if totalPages > 0 then totalPages else 0, k => PageUrl(base, k + 1))
  }

  /** There are `max(totalPages, 0)` URLs, the first is the base URL and the
      others follow the `page/<n>/` shape. */
  lemma PageUrlsShape(base: string, totalPages: int)
    ensures var urls := PageUrls(base, totalPages);
            && |urls| == (if totalPages > 0 then totalPages else 0)
            && (urls != [] ==> urls[0] == base)
            && forall k :: 1 <= k < |urls| ==> urls[k] == base + "page/" + ToDecimal(k + 1) + "/"
  {
  }

  /** No two listing pages share a URL. */
  lemma PageUrlsDistinct(base: string, totalPages: int)
    ensures var urls := PageUrls(base, totalPages);
            forall i, j :: 0 <= i < j < |urls| ==> urls[i] != urls[j]
  {
    var urls := PageUrls(base, totalPages);
    forall i, j | 0 <= i < j < |urls|
      ensures urls[i] != urls[j]
    {
      var b := ToDecimal(j + 1);
      if i == 0 {
        assert |urls[j]| > |base|;
      } else {
        var a := ToDecimal(i + 1);
        if urls[i] == urls[j] {
          assert |a| == |b|;
          assert a == urls[i][|base| + 5..|base| + 5 + |a|];
          assert b == urls[j][|base| + 5..|base| + 5 + |b|];
          ToDecimalInjective(i + 1, j + 1);
        }
      }
    }
  }

  /** The base URL ends with the listing path, as the default one does. */
  predicate EndsWithListingPath(base: string) {
    |base| >= |ListingPath| && base[|base| - |ListingPath|..] == ListingPath
  }

  lemma PageSegmentNoSelfOverlap()
    ensures NoSelfOverlap(PageSegment)
  {
    assert PageSegment[1..] != PageSegment[..4] by { assert PageSegment[1] != PageSegment[0]; }
    assert PageSegment[2..] != PageSegment[..3] by { assert PageSegment[2] != PageSegment[0]; }
    assert PageSegment[3..] != PageSegment[..2] by { assert PageSegment[3] != PageSegment[0]; }
    assert PageSegment[4..] != PageSegment[..1] by { assert PageSegment[4] != PageSegment[0]; }
  }

  /** A page-number suffix `<digits>/` never contains `page/`. */
  lemma NumeralHasNoPageSegment(n: nat)
    ensures !Contains(ToDecimal(n) + "/", PageSegment)
  {
    var t := ToDecimal(n) + "/";
    DecimalRoundTrip(n);
    forall j | 0 <= j
      ensures !OccursAt(t, PageSegment, j)
    {
      if j + |PageSegment| <= |t| {
        assert t[j] != 'p';
        assert t[j..j + |PageSegment|][0] == t[j];
      }
    }
  }

  /** Round trip between the two halves of pagination: the URL generated for
      page `n > 1` is itself a pagination link naming `n`, provided the base
      URL ends with the listing path and `n` prints within the digit limit
      (beyond it `int()` refuses the numeral and the link names no page). */
  lemma {:induction false} PageUrlRoundTrip(base: string, n: nat)
    requires EndsWithListingPath(base) && n > 1
    ensures PageNumberOf(PageUrl(base, n)) == if |ToDecimal(n)| <= MaxStrDigits then Some(n) else None
  {
    PageUrlNumeral(base, n);
    DecimalRoundTrip(n);
  }

  /** The text `PageNumberOf` parses out of the URL of page `n > 1` is the
      numeral of `n`. */
  lemma PageUrlNumeral(base: string, n: nat)
    requires EndsWithListingPath(base) && n > 1
    ensures PageNumberOf(PageUrl(base, n)) == ParseDecimal(ToDecimal(n))
  {
    PageUrlSplits(base, n);
    NumeralStripsSlash(n);
  }

  /** The URL of page `n > 1` is a pagination link whose last `page/` piece
      is the numeral of `n` followed by `/`. */
  lemma PageUrlSplits(base: string, n: nat)
    requires EndsWithListingPath(base) && n > 1
    ensures Contains(PageUrl(base, n), PaginationMarker)
    ensures LastPiece(PageUrl(base, n), PageSegment) == ToDecimal(n) + "/"
  {
    var tail := ToDecimal(n) + "/";
    var url := PageUrl(base, n);
    assert url == base + PageSegment + tail;
    var at := |base| - |ListingPath|;
    assert url[at..at + |PaginationMarker|] == PaginationMarker;
    assert OccursAt(url, PaginationMarker, at);
    PageSegmentNoSelfOverlap();
    NumeralHasNoPageSegment(n);
    LastPieceAfter(base, PageSegment, tail);
  }

  /** `rstrip('/')` takes the trailing `/` off a numeral and nothing more. */
  lemma NumeralStripsSlash(n: nat)
    ensures RStrip(ToDecimal(n) + "/", IsSlash) == ToDecimal(n)
  {
    var digits := ToDecimal(n);
    var tail := digits + "/";
    assert tail[..|tail| - 1] == digits;
    DecimalRoundTrip(n);
    assert !IsSlash(digits[|digits| - 1]);
  }
}
