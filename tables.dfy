/**
 * The two tables of the page analyser, `urls` and `url_checks`, and the
 * queries the request handlers run against them
 * (page_analyzer/app.py:46-63, 77-90, 105-112). Tables are sequences of
 * rows in insertion order; each query is a function of them.
 */
module Tables {
  import opened Options
  import opened Ordering

  /** A point in time, as `datetime.now()` supplies it; only stored and shown. */
  datatype Timestamp = Timestamp(ticks: int)

  /** A row of `urls`. */
  datatype UrlRow = UrlRow(id: int, name: string, createdAt: Timestamp)

  /** A row of `url_checks`. */
  datatype CheckRow = CheckRow(
    id: int, urlId: int, statusCode: int,
    h1: string, title: string, description: string,
    createdAt: Timestamp)

  /** A row of the URL listing: the URL and its latest check's time and status, if any. */
  datatype ListingRow = ListingRow(id: int, name: string, lastCheckedAt: Option<Timestamp>, lastStatusCode: Option<int>)

  function UrlId(u: UrlRow): int { u.id }
  function CheckId(c: CheckRow): int { c.id }
  function ListingId(r: ListingRow): int { r.id }

  /** `SELECT id, name FROM urls WHERE name = %s`, first row. */
  function FindByName(urls: seq<UrlRow>, name: string): (r: Option<UrlRow>)
    ensures r.Some? ==> r.value in urls && r.value.name == name
    ensures r.None? ==> forall u :: u in urls ==> u.name != name
  {
    if urls == [] then None
    else if urls[0].name == name then Some(urls[0])
    else FindByName(urls[1..], name)
  }

  /** `SELECT * FROM urls WHERE id = %s`, first row. */
  function FindById(urls: seq<UrlRow>, id: int): (r: Option<UrlRow>)
    ensures r.Some? ==> r.value in urls && r.value.id == id
    ensures r.None? ==> forall u :: u in urls ==> u.id != id
  {
    if urls == [] then None
    else if urls[0].id == id then Some(urls[0])
    else FindById(urls[1..], id)
  }

  /** `SELECT id FROM urls ORDER BY id DESC LIMIT 1`: the largest id, if any row exists. */
  function LastUrlId(urls: seq<UrlRow>): (m: Option<int>)
    ensures m.None? <==> urls == []
    ensures m.Some? ==> (exists u :: u in urls && u.id == m.value)
    ensures m.Some? ==> forall u :: u in urls ==> u.id <= m.value
  {
    var sorted := SortDesc(urls, UrlId);
    if sorted == [] then None
    else
      assert sorted[0] in multiset(urls);
      assert forall u :: u in urls ==> u in multiset(sorted);
      Some(sorted[0].id)
  }

  /** `c` is a check of URL `urlId` and no check of that URL has a larger id. */
  ghost predicate IsLatestCheck(c: CheckRow, checks: seq<CheckRow>, urlId: int) {
    c in checks && c.urlId == urlId
    && forall d :: d in checks && d.urlId == urlId ==> d.id <= c.id
  }

  /** The check of URL `urlId` with `MAX(url_checks.id)`, absent when the URL has none. */
  function LatestCheck(checks: seq<CheckRow>, urlId: int): (r: Option<CheckRow>)
    ensures r.None? <==> forall c :: c in checks ==> c.urlId != urlId
    ensures r.Some? ==> IsLatestCheck(r.value, checks, urlId)
  {
    if checks == [] then None
    else
      assert checks == [checks[0]] + checks[1..];
      var rest := LatestCheck(checks[1..], urlId);
      if checks[0].urlId != urlId then rest
      else if rest.Some? && rest.value.id > checks[0].id then rest
      else Some(checks[0])
  }

  /** One listing row: the URL left-joined with its latest check. */
  function ListingRowFor(u: UrlRow, checks: seq<CheckRow>): (row: ListingRow)
    ensures row.id == u.id && row.name == u.name
    ensures row.lastStatusCode.None? <==> forall c :: c in checks ==> c.urlId != u.id
    ensures row.lastCheckedAt.None? <==> row.lastStatusCode.None?
    ensures row.lastStatusCode.Some? ==>
      exists c :: IsLatestCheck(c, checks, u.id)
        && row.lastStatusCode == Some(c.statusCode) && row.lastCheckedAt == Some(c.createdAt)
  {
    match LatestCheck(checks, u.id)
    case None => ListingRow(u.id, u.name, None, None)
    case Some(c) => ListingRow(u.id, u.name, Some(c.createdAt), Some(c.statusCode))
  }

  /**
   * The listing of `GET /urls`: every URL with the time and status of its
   * latest check, ordered by URL id descending.
   */
  function ListUrlsWithLatestCheck(urls: seq<UrlRow>, checks: seq<CheckRow>): (rows: seq<ListingRow>)
    ensures |rows| == |urls|
    ensures Descending(rows, ListingId)
  {
    var sorted := SortDesc(urls, UrlId);
    var rows := seq(|sorted|, i requires 0 <= i < |sorted| => ListingRowFor(sorted[i], checks));
    assert forall i :: 0 <= i < |rows| ==> rows[i].id == sorted[i].id;
    rows
  }

  /** Every listing row is a stored URL joined with its latest check. */
  lemma ListingRowsAreUrls(urls: seq<UrlRow>, checks: seq<CheckRow>, i: int)
    requires 0 <= i < |urls|
    ensures exists u :: u in urls && ListUrlsWithLatestCheck(urls, checks)[i] == ListingRowFor(u, checks)
  {
    var sorted := SortDesc(urls, UrlId);
    assert sorted[i] in multiset(urls);
    assert ListUrlsWithLatestCheck(urls, checks)[i] == ListingRowFor(sorted[i], checks);
  }

  /** Every stored URL appears in the listing, joined with its latest check. */
  lemma ListingCoversUrls(urls: seq<UrlRow>, checks: seq<CheckRow>, u: UrlRow)
    requires u in urls
    ensures exists i :: 0 <= i < |urls| && ListUrlsWithLatestCheck(urls, checks)[i] == ListingRowFor(u, checks)
  {
    var sorted := SortDesc(urls, UrlId);
    assert u in multiset(sorted);
    var i :| 0 <= i < |sorted| && sorted[i] == u;
    assert ListUrlsWithLatestCheck(urls, checks)[i] == ListingRowFor(u, checks);
  }

  /** With unique URL ids the listing holds one row per URL, in strictly descending id order. */
  lemma ListingStrictlyDescending(urls: seq<UrlRow>, checks: seq<CheckRow>)
    requires DistinctKeys(urls, UrlId)
    ensures StrictlyDescending(ListUrlsWithLatestCheck(urls, checks), ListingId)
  {
    var sorted := SortDesc(urls, UrlId);
    SortDescStrict(urls, UrlId);
    var rows := ListUrlsWithLatestCheck(urls, checks);
    assert forall i :: 0 <= i < |rows| ==> rows[i].id == sorted[i].id;
  }

  /** `WHERE url_id = %s`: the checks of one URL, in table order. */
  function ChecksOf(checks: seq<CheckRow>, urlId: int): (r: seq<CheckRow>)
    ensures forall c :: multiset(r)[c] == if c.urlId == urlId then multiset(checks)[c] else 0
  {
    if checks == [] then []
    else
      assert checks == [checks[0]] + checks[1..];
      if checks[0].urlId == urlId then [checks[0]] + ChecksOf(checks[1..], urlId)
      else ChecksOf(checks[1..], urlId)
  }

  lemma {:induction false} ChecksOfDistinct(checks: seq<CheckRow>, urlId: int)
    requires DistinctKeys(checks, CheckId)
    ensures DistinctKeys(ChecksOf(checks, urlId), CheckId)
  {
    if checks != [] {
      ChecksOfDistinct(checks[1..], urlId);
      var rest := ChecksOf(checks[1..], urlId);
      forall c | c in rest ensures c.id != checks[0].id {
        assert multiset(rest)[c] > 0;
        assert c in checks[1..];
      }
    }
  }

  /**
   * The checks shown on a URL's page (`... WHERE url_id = %s ORDER BY id DESC`):
   * exactly that URL's checks, each as often as the table holds it, by id descending.
   */
  function ChecksFor(checks: seq<CheckRow>, urlId: int): (r: seq<CheckRow>)
    ensures forall c :: multiset(r)[c] == if c.urlId == urlId then multiset(checks)[c] else 0
    ensures forall c :: c in r <==> c in checks && c.urlId == urlId
    ensures Descending(r, CheckId)
  {
    var r := SortDesc(ChecksOf(checks, urlId), CheckId);
    assert forall c :: c in r <==> multiset(r)[c] > 0;
    r
  }

  /** With unique check ids the checks of a URL come in strictly descending id order. */
  lemma ChecksForStrictlyDescending(checks: seq<CheckRow>, urlId: int)
    requires DistinctKeys(checks, CheckId)
    ensures StrictlyDescending(ChecksFor(checks, urlId), CheckId)
  {
    ChecksOfDistinct(checks, urlId);
    SortDescStrict(ChecksOf(checks, urlId), CheckId);
  }
}
